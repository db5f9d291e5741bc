/**
 * The word-ladder processor: it loads words into the graph, linking every pair
 * of adjacent words, precomputes all shortest paths with Floyd-Warshall into a
 * distance matrix and a next-word matrix, and answers distance and path queries
 * from those matrices.
 */
module WordLadder {
  import opened Outcomes
  import opened Lists
  import opened WordProcessor
  import opened GraphNode
  import opened UndirectedGraph
  import opened Adjacencies
  import opened ShortestPaths

  /** The word stored in the next-word matrix: the word at the next hop's position, or null. */
  function Hop(A: Adjacency, vs: seq<string>, k: nat, i: nat, j: nat): (h: Option<string>)
    requires WellFormed(A) && |vs| == |A| && k <= |A| && i < |A| && j < |A|
    ensures h.Some? <==> i != j && Dist(A, k, i, j) != MaxValue
  {
    NextSound(A, k, i, j);
    match Next(A, k, i, j)
    case None => None
    case Some(x) => Some(vs[x])
  }

  /** dm and pm hold stage k of the distance and next-word matrices over A and vs. */
  ghost predicate MatricesAt(dm: array2<int>, pm: array2<Option<string>>, A: Adjacency, vs: seq<string>, k: nat)
    reads dm, pm
  {
    WellFormed(A) && |vs| == |A| && k <= |A| &&
    dm.Length0 == |A| && dm.Length1 == |A| && pm.Length0 == |A| && pm.Length1 == |A| &&
    forall i, j :: 0 <= i < |A| && 0 <= j < |A| ==>
      dm[i, j] == Dist(A, k, i, j) && pm[i, j] == Hop(A, vs, k, i, j)
  }

  /** Stage 0 of the distance matrix, written out. */
  function FirstDist(A: Adjacency, a: nat, b: nat): int
    requires a < |A| && b < |A[a]|
  {
    if a == b then 0 else if A[a][b] then 1 else MaxValue
  }

  /** Stage 0 of the next-word matrix, written out. */
  function FirstHop(A: Adjacency, vs: seq<string>, a: nat, b: nat): Option<string>
    requires a < |A| && b < |A[a]| && b < |vs|
  {
    if a != b && A[a][b] then Some(vs[b]) else None
  }

  /** The cells the set-up loop has visited once it is at row i, column j (j >= i). */
  predicate Visited(i: nat, j: nat, a: nat, b: nat) {
    a < i || b < i || (a == i && b < j) || (b == i && a < j)
  }

  /** The set-up loop's invariant: the visited cells hold stage 0, the others no next word. */
  ghost predicate FilledTo(dm: array2<int>, pm: array2<Option<string>>, A: Adjacency, vs: seq<string>, i: nat, j: nat)
    reads dm, pm
  {
    |A| == |vs| && (forall a :: 0 <= a < |A| ==> |A[a]| == |A|) &&
    dm.Length0 == |A| && dm.Length1 == |A| && pm.Length0 == |A| && pm.Length1 == |A| &&
    (forall a, b :: 0 <= a < |A| && 0 <= b < |A| && Visited(i, j, a, b) ==> dm[a, b] == FirstDist(A, a, b)) &&
    (forall a, b :: 0 <= a < |A| && 0 <= b < |A| ==>
       pm[a, b] == if Visited(i, j, a, b) then FirstHop(A, vs, a, b) else None)
  }

  /**
   * The set-up half of shortestPathPrecomputation: the upper triangle is visited
   * and mirrored; the diagonal is 0, a linked pair 1 with each naming the other
   * as next word, any other pair MAX_VALUE with no next word.
   */
  method InitialMatrices(g: Graph, vs: seq<string>, ghost A: Adjacency)
    returns (dm: array2<int>, pm: array2<Option<string>>)
    requires g.Valid() && WellFormed(A) && |A| == |vs|
    requires forall a, b :: 0 <= a < |vs| && 0 <= b < |vs| ==> A[a][b] == g.Edge(vs[a], vs[b])
    ensures fresh(dm) && fresh(pm)
    ensures MatricesAt(dm, pm, A, vs, 0)
  {
    var n := |vs|;
    dm := new int[n, n];
    pm := new Option<string>[n, n]((_, _) => None);
    for i := 0 to n
      invariant FilledTo(dm, pm, A, vs, i, i)
    {
      FillRow(g, vs, A, dm, pm, i);
    }
    forall a, b | 0 <= a < n && 0 <= b < n
      ensures dm[a, b] == Dist(A, 0, a, b) && pm[a, b] == Hop(A, vs, 0, a, b)
    {
      assert Visited(n, n, a, b);
    }
  }

  /** Row i of the set-up loop: cells (i, j) and (j, i) for j from i on. */
  method FillRow(g: Graph, vs: seq<string>, ghost A: Adjacency, dm: array2<int>, pm: array2<Option<string>>, i: nat)
    requires g.Valid() && i < |vs| && FilledTo(dm, pm, A, vs, i, i)
    requires forall a, b :: 0 <= a < |vs| && 0 <= b < |vs| ==> A[a][b] == g.Edge(vs[a], vs[b])
    modifies dm, pm
    ensures FilledTo(dm, pm, A, vs, i + 1, i + 1)
  {
    for j := i to |vs|
      invariant FilledTo(dm, pm, A, vs, i, j)
    {
      FillCell(g, vs, A, dm, pm, i, j);
    }
  }

  /** One step of the set-up loop: cell (i, j) and its mirror (j, i). */
  method FillCell(g: Graph, vs: seq<string>, ghost A: Adjacency, dm: array2<int>, pm: array2<Option<string>>, i: nat, j: nat)
    requires g.Valid() && i <= j < |vs| && FilledTo(dm, pm, A, vs, i, j)
    requires A[i][j] == g.Edge(vs[i], vs[j]) && A[j][i] == g.Edge(vs[j], vs[i])
    modifies dm, pm
    ensures FilledTo(dm, pm, A, vs, i, j + 1)
  {
    if i == j {
      dm[i, j] := 0;
      pm[i, j] := None;
    } else {
      var linked := g.IsAdjacent(vs[i], vs[j]);
      if linked {
        dm[j, i] := 1;
        dm[i, j] := 1;
        pm[i, j] := Some(vs[j]);
        pm[j, i] := Some(vs[i]);
      } else {
        dm[j, i] := MaxValue;
        dm[i, j] := MaxValue;
      }
    }
  }

  /** Both matrices of shortestPathPrecomputation over the vertex list vs. */
  method AllPairs(g: Graph, vs: seq<string>) returns (dm: array2<int>, pm: array2<Option<string>>, ghost A: Adjacency)
    requires g.Valid()
    ensures fresh(dm) && fresh(pm) && g.IsAdjacencyOf(A, vs)
    ensures MatricesAt(dm, pm, A, vs, |vs|)
  {
    A := g.AdjacencyOf(vs);
    g.AdjacencyWellFormed(A, vs);
    dm, pm := InitialMatrices(g, vs, A);
    for k := 0 to |vs|
      invariant fresh(dm) && fresh(pm) && MatricesAt(dm, pm, A, vs, k)
    {
      dm, pm := RelaxThrough(dm, pm, A, vs, k);
    }
  }

  /** Rows below i, and row i left of column j, hold stage k + 1. */
  ghost predicate RelaxedTo(nd: array2<int>, np: array2<Option<string>>, A: Adjacency, vs: seq<string>, k: nat, i: nat, j: nat)
    reads nd, np
  {
    WellFormed(A) && |vs| == |A| && k < |A| &&
    nd.Length0 == |A| && nd.Length1 == |A| && np.Length0 == |A| && np.Length1 == |A| &&
    forall a, b :: 0 <= a < |A| && 0 <= b < |A| && (a < i || (a == i && b < j)) ==>
      nd[a, b] == Dist(A, k + 1, a, b) && np[a, b] == Hop(A, vs, k + 1, a, b)
  }

  /**
   * One stage k of shortestPathPrecomputation: fresh matrices in which each pair
   * is improved through k when the stage's test passes, the improved distance
   * also written to the mirrored cell, and copied from stage k otherwise.
   */
  method RelaxThrough(dm: array2<int>, pm: array2<Option<string>>, ghost A: Adjacency, ghost vs: seq<string>, k: nat)
    returns (nd: array2<int>, np: array2<Option<string>>)
    requires MatricesAt(dm, pm, A, vs, k) && k < |A|
    ensures fresh(nd) && fresh(np)
    ensures MatricesAt(nd, np, A, vs, k + 1)
  {
    var n := dm.Length0;
    nd := new int[n, n];
    np := new Option<string>[n, n]((_, _) => None);
    for i := 0 to n
      invariant RelaxedTo(nd, np, A, vs, k, i, 0)
    {
      RelaxRow(dm, pm, A, vs, k, nd, np, i);
    }
    assert RelaxedTo(nd, np, A, vs, k, n, 0);
  }

  /** Row i of stage k. */
  method RelaxRow(dm: array2<int>, pm: array2<Option<string>>, ghost A: Adjacency, ghost vs: seq<string>, k: nat,
                  nd: array2<int>, np: array2<Option<string>>, i: nat)
    requires MatricesAt(dm, pm, A, vs, k) && k < |A| && i < |A|
    requires RelaxedTo(nd, np, A, vs, k, i, 0) && nd != dm && np != pm
    modifies nd, np
    ensures RelaxedTo(nd, np, A, vs, k, i + 1, 0)
  {
    for j := 0 to dm.Length0
      invariant RelaxedTo(nd, np, A, vs, k, i, j)
    {
      RelaxCell(dm, pm, A, vs, k, nd, np, i, j);
    }
  }

  /** Cell (i, j) of stage k; an improvement also overwrites the mirrored cell (j, i). */
  method RelaxCell(dm: array2<int>, pm: array2<Option<string>>, ghost A: Adjacency, ghost vs: seq<string>, k: nat,
                   nd: array2<int>, np: array2<Option<string>>, i: nat, j: nat)
    requires MatricesAt(dm, pm, A, vs, k) && k < |A| && i < |A| && j < |A|
    requires RelaxedTo(nd, np, A, vs, k, i, j) && nd != dm && np != pm
    modifies nd, np
    ensures RelaxedTo(nd, np, A, vs, k, i, j + 1)
  {
    StageStep(A, vs, k, i, j);
    if i != k && j != k && j != i && dm[i, k] != MaxValue && dm[k, j] != MaxValue && dm[i, j] > dm[i, k] + dm[k, j] {
      DistSymmetric(A, k + 1, i, j);
      nd[j, i] := dm[i, k] + dm[k, j];
      nd[i, j] := dm[i, k] + dm[k, j];
      np[i, j] := pm[i, k];
    } else {
      nd[i, j] := dm[i, j];
      np[i, j] := pm[i, j];
    }
  }

  /** Stage k + 1 at (i, j): the path through k when the stage's test passes, stage k otherwise. */
  lemma StageStep(A: Adjacency, vs: seq<string>, k: nat, i: nat, j: nat)
    requires WellFormed(A) && |vs| == |A| && k < |A| && i < |A| && j < |A|
    ensures var relax := Relaxes(i, j, k, Dist(A, k, i, j), Dist(A, k, i, k), Dist(A, k, k, j));
            Dist(A, k + 1, i, j) == (if relax then Dist(A, k, i, k) + Dist(A, k, k, j) else Dist(A, k, i, j)) &&
            Hop(A, vs, k + 1, i, j) == if relax then Hop(A, vs, k, i, k) else Hop(A, vs, k, i, j)
  {
  }

  /** Every edge of g joins two adjacent words. */
  ghost predicate EdgesSound(g: Graph)
    reads g, g.nodes
  {
    forall u, v :: g.Edge(u, v) ==> Adjacent(u, v)
  }

  /** Every two adjacent vertices of g, neither of them s, are linked. */
  ghost predicate CompleteAwayFrom(g: Graph, s: string)
    reads g, g.nodes
  {
    forall u, v :: u in g.vertices && v in g.vertices && u != s && v != s && Adjacent(u, v) ==> g.Edge(u, v)
  }

  /** Every two adjacent vertices of g are linked. */
  ghost predicate Complete(g: Graph)
    reads g, g.nodes
  {
    forall u, v :: u in g.vertices && v in g.vertices && Adjacent(u, v) ==> g.Edge(u, v)
  }

  /** The vertex list after addVertex of each word in turn: a word already present is skipped. */
  function WithWords(vs: seq<string>, words: seq<string>): seq<string>
  {
    if words == [] then vs
    else
      var r := WithWords(vs, words[..|words| - 1]);
      var w := words[|words| - 1];
      if w in r then r else r + [w]
  }

  /** The list keeps vs as its head and holds exactly the words of vs and of words, each once. */
  lemma {:induction false} WithWordsFacts(vs: seq<string>, words: seq<string>)
    ensures var r := WithWords(vs, words);
            |vs| <= |r| <= |vs| + |words| && r[..|vs|] == vs &&
            (forall x :: x in r <==> x in vs || x in words) &&
            (NoDup(vs) ==> NoDup(r))
  {
    if words != [] {
      var w := words[|words| - 1];
      WithWordsFacts(vs, words[..|words| - 1]);
      assert forall x :: x in words <==> x in words[..|words| - 1] || x == w;
    }
  }

  /** Words already listed add nothing. */
  lemma {:induction false} WithWordsKnown(vs: seq<string>, words: seq<string>)
    requires forall w :: w in words ==> w in vs
    ensures WithWords(vs, words) == vs
  {
    if words != [] {
      var rest := words[..|words| - 1];
      assert forall w :: w in rest ==> w in words;
      WithWordsKnown(vs, rest);
      assert words[|words| - 1] in words;
    }
  }

  /** Loading only the first n words gives a list no longer than loading them all. */
  lemma {:induction false} WithWordsPrefix(vs: seq<string>, words: seq<string>, n: nat)
    requires n <= |words|
    ensures |WithWords(vs, words[..n])| <= |WithWords(vs, words)|
  {
    if n == |words| {
      assert words[..n] == words;
    } else {
      var init := words[..|words| - 1];
      assert init[..n] == words[..n];
      WithWordsPrefix(vs, init, n);
    }
  }

  /** Loading the same words a second time leaves the vertex list as it is. */
  lemma RepeatedLoad(vs: seq<string>, words: seq<string>)
    ensures WithWords(WithWords(vs, words), words) == WithWords(vs, words)
  {
    WithWordsFacts(vs, words);
    WithWordsKnown(WithWords(vs, words), words);
  }

  /** In a sound and complete graph the edges are exactly the adjacent pairs of vertices. */
  lemma EdgesAreAdjacency(g: Graph)
    requires g.Valid() && EdgesSound(g) && Complete(g)
    ensures forall u, v :: g.Edge(u, v) <==> u in g.vertices && v in g.vertices && Adjacent(u, v)
  {
  }

  /**
   * The position of the first vertex of vs that forms a prefix pair with s, or
   * |vs|: where the linking scan for s stops.
   */
  function ScanStop(vs: seq<string>, s: string): (t: nat)
    ensures t <= |vs|
    ensures forall m :: 0 <= m < t ==> !PrefixCase(vs[m], s)
    ensures t < |vs| ==> PrefixCase(vs[t], s)
  {
    if vs == [] || PrefixCase(vs[0], s) then 0 else 1 + ScanStop(vs[1..], s)
  }

  /** A link the scan of the vertices vs for s makes: s and an adjacent word of vs. */
  ghost predicate ScanLink(vs: seq<string>, s: string, a: string, b: string) {
    ((a == s && b in vs) || (b == s && a in vs)) && Adjacent(a, b)
  }

  /**
   * The inner loop of populateGraph for a word s already added: each vertex in
   * list order is tested against s and linked to it when adjacent. The test
   * fails on a vertex forming a prefix pair with s, and then the scan stops
   * with the links made so far.
   */
  method LinkWord(g: Graph, s: string) returns (ok: bool)
    requires g.Valid() && s in g.adjList && EdgesSound(g)
    modifies g.nodes
    ensures g.Valid() && EdgesSound(g) && g.nodes.data == old(g.nodes.data)
    ensures ok <==> forall u :: u in g.vertices ==> !PrefixCase(u, s)
    ensures var t := ScanStop(g.vertices, s);
            (ok <==> t == |g.vertices|) &&
            forall a, b :: g.Edge(a, b) <==> old(g.Edge(a, b)) || ScanLink(g.vertices[..t], s, a, b)
    ensures ok && old(CompleteAwayFrom(g, s)) ==> Complete(g)
  {
    var list := g.GetAllVertices();
    for t := 0 to |list|
      invariant g.Valid() && EdgesSound(g) && g.nodes.data == old(g.nodes.data)
      invariant forall m :: 0 <= m < t ==> !PrefixCase(list[m], s)
      invariant forall a, b :: g.Edge(a, b) <==> old(g.Edge(a, b)) || ScanLink(list[..t], s, a, b)
    {
      var str := list[t];
      TakeOneMore(list, t);
      var linked := LinkPair(g, str, s);
      if !linked {
        return false;
      }
    }
    assert list[..|list|] == list;
    return true;
  }

  /** One step of the inner loop of populateGraph: str and s are linked when isAdjacent says so. */
  method LinkPair(g: Graph, str: string, s: string) returns (ok: bool)
    requires g.Valid() && str in g.adjList && s in g.adjList && EdgesSound(g)
    modifies g.nodes
    ensures g.Valid() && EdgesSound(g) && g.nodes.data == old(g.nodes.data)
    ensures ok <==> !PrefixCase(str, s)
    ensures forall a, b :: g.Edge(a, b) <==> old(g.Edge(a, b)) || (ok && ScanLink([str], s, a, b))
  {
    var adjacent := WordProcessor.IsAdjacent(str, s);
    if adjacent.Err? {
      return false;
    }
    if adjacent.value {
      if str != s {
        var _ := g.AddEdge(str, s);
        AdjacentSymmetric(str, s);
      }
    }
    return true;
  }

  /** l is a word ladder from w1 to w2 in g: each word is linked to the next. */
  ghost predicate IsLadder(g: Graph, l: seq<string>, w1: string, w2: string)
    reads g, g.nodes
  {
    |l| >= 1 && l[0] == w1 && l[|l| - 1] == w2 &&
    forall m :: 0 <= m < |l| - 1 ==> g.Edge(l[m], l[m + 1])
  }

  /** d is the number of links of the shortest ladder from w1 to w2, or MAX_VALUE when there is none. */
  ghost predicate ShortestLadderLength(g: Graph, w1: string, w2: string, d: int)
    reads g, g.nodes
  {
    (d == MaxValue <==> forall l :: !IsLadder(g, l, w1, w2)) &&
    (d != MaxValue ==>
       (exists l :: IsLadder(g, l, w1, w2) && |l| - 1 == d) &&
       (forall l :: IsLadder(g, l, w1, w2) ==> d <= |l| - 1))
  }

  /** The positions in vs of the words of l. */
  function Positions(vs: seq<string>, l: seq<string>): (p: seq<nat>)
    requires forall m :: 0 <= m < |l| ==> l[m] in vs
    ensures |p| == |l| && forall m :: 0 <= m < |l| ==> p[m] < |vs| && vs[p[m]] == l[m]
  {
    seq(|l|, m requires 0 <= m < |l| => IndexOf(vs, l[m]))
  }

  /** A walk over the adjacency of vs spells a ladder between its end words. */
  lemma WalkIsLadder(g: Graph, A: Adjacency, vs: seq<string>, p: seq<nat>, i: nat, j: nat)
    requires g.IsAdjacencyOf(A, vs) && Links(A, p, i, j)
    ensures IsLadder(g, Spell(vs, p), vs[i], vs[j])
  {
    var l := Spell(vs, p);
    forall m | 0 <= m < |l| - 1
      ensures g.Edge(l[m], l[m + 1])
    {
      assert A[p[m]][p[m + 1]];
    }
  }

  /** A ladder between two vertices is spelled by a walk of the same length over their positions. */
  lemma LadderIsWalk(g: Graph, A: Adjacency, l: seq<string>, i: nat, j: nat)
    requires g.Valid() && g.IsAdjacencyOf(A, g.vertices)
    requires i < |g.vertices| && j < |g.vertices| && IsLadder(g, l, g.vertices[i], g.vertices[j])
    ensures forall m :: 0 <= m < |l| ==> l[m] in g.vertices
    ensures Links(A, Positions(g.vertices, l), i, j)
  {
    var vs := g.vertices;
    forall m | 0 <= m < |l|
      ensures l[m] in vs
    {
      if m < |l| - 1 {
        assert g.Edge(l[m], l[m + 1]);
      }
    }
    var p := Positions(vs, l);
    IndexOfDistinct(vs, i);
    IndexOfDistinct(vs, j);
    forall m | 0 <= m < |p| - 1
      ensures p[m + 1] < |A[p[m]]| && A[p[m]][p[m + 1]]
    {
      assert g.Edge(l[m], l[m + 1]);
    }
  }

  /**
   * Over all the vertices, the last stage of the distance matrix gives the
   * number of links of the shortest word ladder, and MAX_VALUE exactly when no
   * ladder exists.
   */
  lemma DistIsLadderLength(g: Graph, A: Adjacency, i: nat, j: nat)
    requires g.Valid() && g.IsAdjacencyOf(A, g.vertices)
    requires |g.vertices| <= MaxValue && i < |g.vertices| && j < |g.vertices|
    ensures WellFormed(A)
    ensures ShortestLadderLength(g, g.vertices[i], g.vertices[j], Dist(A, |A|, i, j))
  {
    var vs := g.vertices;
    g.AdjacencyWellFormed(A, vs);
    DistIsShortest(A, i, j);
    var d := Dist(A, |A|, i, j);
    forall l | IsLadder(g, l, vs[i], vs[j])
      ensures d != MaxValue && d <= |l| - 1
    {
      LadderIsWalk(g, A, l, i, j);
      assert Links(A, Positions(vs, l), i, j);
    }
    if d != MaxValue {
      var p :| Links(A, p, i, j) && |p| - 1 == d;
      WalkIsLadder(g, A, vs, p, i, j);
    }
  }

  /**
   * Over all the vertices, the path getShortestPath reads off the next-word
   * matrix is empty exactly for the same word twice or for words no ladder
   * joins; otherwise it is a ladder between them no other ladder undercuts.
   */
  lemma ShortestPathIsLadder(g: Graph, A: Adjacency, i: nat, j: nat)
    requires g.Valid() && g.IsAdjacencyOf(A, g.vertices)
    requires |g.vertices| <= MaxValue && i < |g.vertices| && j < |g.vertices|
    ensures WellFormed(A)
    ensures var P, w1, w2 := ShortestPath(A, g.vertices, i, j), g.vertices[i], g.vertices[j];
            (P == [] <==> w1 == w2 || forall l :: !IsLadder(g, l, w1, w2)) &&
            (P != [] ==> IsLadder(g, P, w1, w2) && forall l :: IsLadder(g, l, w1, w2) ==> |P| <= |l|)
  {
    var vs := g.vertices;
    g.AdjacencyWellFormed(A, vs);
    ShortestPathMeaning(A, vs, i, j);
    DistIsLadderLength(g, A, i, j);
    var P := ShortestPath(A, vs, i, j);
    if P != [] {
      var p :| Links(A, p, i, j) && |p| - 1 == Dist(A, |A|, i, j) && P == Spell(vs, p);
      WalkIsLadder(g, A, vs, p, i, j);
    }
    assert vs[i] == vs[j] ==> i == j;
  }

  /** Some word of known and some word of ws form a prefix pair, on which isAdjacent fails. */
  ghost predicate PrefixPairAmong(known: seq<string>, ws: seq<string>) {
    exists u, v :: u in known && v in ws && PrefixCase(u, v)
  }

  /** Adding s after the words of done. */
  lemma WithWordsSnoc(vs: seq<string>, done: seq<string>, s: string)
    ensures var r := WithWords(vs, done);
            WithWords(vs, done + [s]) == if s in r then r else r + [s]
  {
    assert (done + [s])[..|done|] == done;
  }

  /** A word that forms no prefix pair with any listed word, itself included, adds no pair. */
  lemma PrefixPairsGrow(before: seq<string>, done: seq<string>, s: string)
    requires !PrefixPairAmong(before + done, done)
    requires forall u :: u in WithWords(before, done + [s]) ==> !PrefixCase(u, s)
    ensures !PrefixPairAmong(before + (done + [s]), done + [s])
  {
    WithWordsFacts(before, done + [s]);
    forall u, v | u in before + (done + [s]) && v in done + [s]
      ensures !PrefixCase(u, v)
    {
      AdjacentSymmetric(u, v);
      if v != s {
        assert u == s || u in before + done;
      }
    }
  }

  /** A prefix pair met while adding a word of words is a prefix pair among all the words. */
  lemma PrefixPairFound(before: seq<string>, done: seq<string>, s: string, words: seq<string>, u: string)
    requires s in words && (forall x :: x in done ==> x in words)
    requires u in WithWords(before, done + [s]) && PrefixCase(u, s)
    ensures PrefixPairAmong(before + words, words)
  {
    WithWordsFacts(before, done + [s]);
    assert u in before + words;
  }

  /** One step of the loop of populateGraph: addVertex, then the linking scan. */
  method AddWord(g: Graph, s: string) returns (ok: bool)
    requires g.Valid() && EdgesSound(g)
    modifies g, g.nodes
    ensures g.Valid() && EdgesSound(g)
    ensures g.vertices == if s in old(g.vertices) then old(g.vertices) else old(g.vertices) + [s]
    ensures ok <==> forall u :: u in g.vertices ==> !PrefixCase(u, s)
    ensures var t := ScanStop(g.vertices, s);
            (ok <==> t == |g.vertices|) &&
            forall a, b :: g.Edge(a, b) <==> old(g.Edge(a, b)) || ScanLink(g.vertices[..t], s, a, b)
    ensures ok && old(Complete(g)) ==> Complete(g)
  {
    ghost var complete := Complete(g);
    var _ := g.AddVertex(s);
    assert complete ==> CompleteAwayFrom(g, s);
    ok := LinkWord(g, s);
  }

  /** A prefix pair among the first a words stays one among the first b >= a. */
  lemma PrefixPairWidens(vs: seq<string>, words: seq<string>, a: nat, b: nat)
    requires a <= b <= |words| && PrefixPairAmong(vs + words[..a], words[..a])
    ensures PrefixPairAmong(vs + words[..b], words[..b])
  {
    var u, v :| u in vs + words[..a] && v in words[..a] && PrefixCase(u, v);
    assert words[..a] == words[..b][..a];
    assert u in vs + words[..b] && v in words[..b];
  }

  /**
   * The number of words populateGraph adds to the list vs: all of them when no
   * prefix pair occurs, otherwise up to and including the first word that forms
   * one with a listed word.
   */
  ghost function Loaded(vs: seq<string>, words: seq<string>): (n: nat)
    ensures n <= |words|
    ensures !PrefixPairAmong(vs + words, words) ==> n == |words|
    ensures PrefixPairAmong(vs + words, words) ==>
              0 < n && !PrefixPairAmong(vs + words[..n - 1], words[..n - 1]) &&
              PrefixPairAmong(vs + words[..n], words[..n])
  {
    if words == [] then 0
    else
      var init := words[..|words| - 1];
      assert words[..|words|] == words;
      if PrefixPairAmong(vs + init, init) then
        var n := Loaded(vs, init);
        assert init[..n] == words[..n] && init[..n - 1] == words[..n - 1];
        PrefixPairWidens(vs, words, |words| - 1, |words|);
        n
      else
        |words|
  }

  /** The first word count with a prefix pair is the count Loaded gives. */
  lemma LoadedAt(vs: seq<string>, words: seq<string>, n: nat)
    requires 0 < n <= |words|
    requires !PrefixPairAmong(vs + words[..n - 1], words[..n - 1])
    requires PrefixPairAmong(vs + words[..n], words[..n])
    ensures Loaded(vs, words) == n
  {
    PrefixPairWidens(vs, words, n, |words|);
    assert words[..|words|] == words;
    var m := Loaded(vs, words);
    if m < n {
      PrefixPairWidens(vs, words, m, n - 1);
    } else if m > n {
      PrefixPairWidens(vs, words, n, m - 1);
    }
  }

  /** Two adjacent words of the list vs, one of them among ws: the links loading ws makes. */
  ghost predicate LoadedLink(vs: seq<string>, ws: seq<string>, a: string, b: string) {
    a in vs && b in vs && (a in ws || b in ws) && Adjacent(a, b)
  }

  /**
   * A link populateGraph makes when it loads words onto the list vs: when no
   * prefix pair occurs, every adjacent pair with a loaded word; otherwise those
   * of the words before the failing one, and the failing word's links to the
   * vertices its scan passed.
   */
  ghost predicate LoadLink(vs: seq<string>, words: seq<string>, a: string, b: string) {
    if !PrefixPairAmong(vs + words, words) then LoadedLink(WithWords(vs, words), words, a, b)
    else
      var n := Loaded(vs, words);
      var V := WithWords(vs, words[..n]);
      LoadedLink(WithWords(vs, words[..n - 1]), words[..n - 1], a, b) ||
      ScanLink(V[..ScanStop(V, words[n - 1])], words[n - 1], a, b)
  }

  /** When a prefix pair stops the load after n words, its links are those of the first n - 1 and the scan of the n-th. */
  lemma LoadLinkStopped(vs: seq<string>, words: seq<string>, n: nat, a: string, b: string)
    requires 0 < n <= |words| && Loaded(vs, words) == n && PrefixPairAmong(vs + words, words)
    ensures var V := WithWords(vs, words[..n]);
            LoadLink(vs, words, a, b) <==>
              LoadedLink(WithWords(vs, words[..n - 1]), words[..n - 1], a, b) ||
              ScanLink(V[..ScanStop(V, words[n - 1])], words[n - 1], a, b)
  {
    var V := WithWords(vs, words[..n]);
    var t := ScanStop(V, words[n - 1]);
    var W := WithWords(vs, words[..n - 1]);
    assert LoadLink(vs, words, a, b) == (LoadedLink(W, words[..n - 1], a, b) || ScanLink(V[..t], words[n - 1], a, b));
  }

  /** Loading s after done adds exactly the links of s to the words listed by then. */
  lemma LoadedLinkStep(before: seq<string>, done: seq<string>, s: string, a: string, b: string)
    ensures var V, V' := WithWords(before, done), WithWords(before, done + [s]);
            LoadedLink(V', done + [s], a, b) <==> LoadedLink(V, done, a, b) || ScanLink(V', s, a, b)
  {
    WithWordsSnoc(before, done, s);
  }

  /**
   * The state of the loop of populateGraph after the words done, started from
   * the list before and the edges E0: the list, and the edges made so far. While
   * ok, every adjacent pair with a loaded word is linked; once a prefix pair has
   * stopped the load at the last word of done, that word's links are the ones
   * its scan made before the pair.
   */
  ghost predicate LoadedState(g: Graph, E0: iset<(string, string)>, before: seq<string>, done: seq<string>, ok: bool)
    reads g, g.nodes
  {
    g.Valid() && EdgesSound(g) && g.vertices == WithWords(before, done) &&
    if ok then
      !PrefixPairAmong(before + done, done) &&
      forall a, b :: g.Edge(a, b) <==> (a, b) in E0 || LoadedLink(g.vertices, done, a, b)
    else
      |done| > 0 &&
      var m := |done| - 1;
      !PrefixPairAmong(before + done[..m], done[..m]) && PrefixPairAmong(before + done, done) &&
      forall a, b :: g.Edge(a, b) <==>
                       ((a, b) in E0 || LoadedLink(WithWords(before, done[..m]), done[..m], a, b) ||
                        ScanLink(g.vertices[..ScanStop(g.vertices, done[m])], done[m], a, b))
  }

  /** One round of the loop of populateGraph: the word s after the words done. */
  method LoadNext(g: Graph, ghost E0: iset<(string, string)>, ghost before: seq<string>, ghost done: seq<string>,
                  s: string, ghost complete: bool) returns (ok: bool)
    requires LoadedState(g, E0, before, done, true) && (complete ==> Complete(g))
    modifies g, g.nodes
    ensures LoadedState(g, E0, before, done + [s], ok)
    ensures ok && complete ==> Complete(g)
  {
    ghost var E1 := iset a: string, b: string | g.Edge(a, b) :: (a, b);
    ok := AddWord(g, s);
    WithWordsSnoc(before, done, s);
    LoadStep(g, E0, E1, before, done, s, ok);
  }

  /** The state after the round for s, from the state before it, whose edges were E1. */
  lemma LoadStep(g: Graph, E0: iset<(string, string)>, E1: iset<(string, string)>, before: seq<string>,
                 done: seq<string>, s: string, ok: bool)
    requires !PrefixPairAmong(before + done, done)
    requires forall a, b :: (a, b) in E1 <==> (a, b) in E0 || LoadedLink(WithWords(before, done), done, a, b)
    requires g.Valid() && EdgesSound(g) && g.vertices == WithWords(before, done + [s])
    requires ok <==> forall u :: u in g.vertices ==> !PrefixCase(u, s)
    requires var t := ScanStop(g.vertices, s);
             forall a, b :: g.Edge(a, b) <==> (a, b) in E1 || ScanLink(g.vertices[..t], s, a, b)
    ensures LoadedState(g, E0, before, done + [s], ok)
  {
    WithWordsSnoc(before, done, s);
    if ok {
      PrefixPairsGrow(before, done, s);
      assert g.vertices[..|g.vertices|] == g.vertices;
      forall a, b
        ensures g.Edge(a, b) <==> (a, b) in E0 || LoadedLink(g.vertices, done + [s], a, b)
      {
        LoadedLinkStep(before, done, s, a, b);
      }
    } else {
      var u :| u in g.vertices && PrefixCase(u, s);
      PrefixPairFound(before, done, s, done + [s], u);
      assert (done + [s])[..|done|] == done && (done + [s])[|done|] == s;
    }
  }

  /**
   * The loop of populateGraph: each word is added as a vertex and linked to the
   * adjacent vertices, until isAdjacent fails on a prefix pair; n counts the
   * words added, the failing one included.
   */
  method AddWords(g: Graph, words: seq<string>) returns (ok: bool, n: nat)
    requires g.Valid() && EdgesSound(g)
    modifies g, g.nodes
    ensures g.Valid() && EdgesSound(g)
    ensures ok <==> !PrefixPairAmong(old(g.vertices) + words, words)
    ensures n == Loaded(old(g.vertices), words) && g.vertices == WithWords(old(g.vertices), words[..n])
    ensures forall a, b :: g.Edge(a, b) <==> old(g.Edge(a, b)) || LoadLink(old(g.vertices), words, a, b)
    ensures ok && old(Complete(g)) ==> Complete(g)
  {
    ghost var before := g.vertices;
    ghost var E0 := iset a: string, b: string | g.Edge(a, b) :: (a, b);
    ghost var done: seq<string> := [];
    ghost var complete := Complete(g);
    n, ok := 0, true;
    while n < |words| && ok
      invariant n <= |words| && done == words[..n]
      invariant LoadedState(g, E0, before, done, ok)
      invariant ok && complete ==> Complete(g)
    {
      var s := words[n];
      TakeOneMore(words, n);
      ok := LoadNext(g, E0, before, done, s, complete);
      done := done + [s];
      n := n + 1;
    }
    LoadFinished(g, E0, before, words, n, ok);
  }

  /** Where the loop of populateGraph ends, its state is the one Loaded and LoadLink describe. */
  lemma LoadFinished(g: Graph, E0: iset<(string, string)>, before: seq<string>, words: seq<string>, n: nat, ok: bool)
    requires n <= |words| && LoadedState(g, E0, before, words[..n], ok) && (ok ==> n == |words|)
    ensures ok <==> !PrefixPairAmong(before + words, words)
    ensures n == Loaded(before, words)
    ensures forall a, b :: g.Edge(a, b) <==> (a, b) in E0 || LoadLink(before, words, a, b)
  {
    var done := words[..n];
    if ok {
      assert done == words;
    } else {
      assert done[..n - 1] == words[..n - 1] && done[n - 1] == words[n - 1];
      LoadedAt(before, words, n);
      PrefixPairWidens(before, words, n, |words|);
      assert words[..|words|] == words;
      forall a, b
        ensures LoadLink(before, words, a, b) <==>
                  LoadedLink(WithWords(before, done[..n - 1]), done[..n - 1], a, b) ||
                  ScanLink(g.vertices[..ScanStop(g.vertices, done[n - 1])], done[n - 1], a, b)
      {
        LoadLinkStopped(before, words, n, a, b);
      }
    }
  }

  class GraphProcessor {
    const graph: Graph
    /** The processor's own empty list until a load completes; from then on the graph's list. */
    var vertices: seq<string>
    var sharesGraphList: bool
    var distanceMatrix: array2?<int>
    var predMatrix: array2?<Option<string>>
    /** The vertex list and the edges among its words when the matrices were last computed. */
    ghost var indexed: seq<string>
    ghost var snapshot: Adjacency

    /**
     * The graph is consistent and holds only edges between adjacent words; the
     * vertex list is the processor's own empty list or the graph's; when the
     * matrices exist they hold the last stage over a prefix of the vertex list.
     */
    ghost predicate Valid()
      reads this, graph, graph.nodes, distanceMatrix, predMatrix
    {
      graph.Valid() && EdgesSound(graph) &&
      (if sharesGraphList then vertices == graph.vertices else vertices == []) &&
      (distanceMatrix == null <==> predMatrix == null) &&
      (distanceMatrix != null ==>
         |indexed| <= |vertices| && vertices[..|indexed|] == indexed && |indexed| <= MaxValue &&
         MatricesAt(distanceMatrix, predMatrix, snapshot, indexed, |indexed|))
    }

    /** The matrices were computed over the present vertex list and its present edges. */
    ghost predicate Current()
      reads this, graph, graph.nodes
    {
      distanceMatrix != null && indexed == vertices && graph.IsAdjacencyOf(snapshot, vertices)
    }

    constructor ()
      ensures Valid() && fresh(graph) && fresh(graph.nodes)
      ensures graph.vertices == [] && vertices == [] && !sharesGraphList && distanceMatrix == null
      ensures Complete(graph)
    {
      graph := new Graph();
      vertices := [];
      sharesGraphList := false;
      distanceMatrix, predMatrix := null, null;
      indexed, snapshot := [], [];
    }

    /**
     * shortestPathPrecomputation: stage 0 from the edges among the listed
     * vertices, then one stage per vertex, each into fresh matrices.
     */
    method ShortestPathPrecomputation()
      requires Valid() && |vertices| <= MaxValue
      modifies this
      ensures Valid()
      ensures Current()
      ensures vertices == old(vertices) && sharesGraphList == old(sharesGraphList)
      ensures fresh(distanceMatrix) && fresh(predMatrix)
    {
      var vs := vertices;
      var dm, pm, A := AllPairs(graph, vs);
      assert vs[..|vs|] == vs;
      distanceMatrix, predMatrix := dm, pm;
      indexed, snapshot := vs, A;
    }

    /**
     * populateGraph over the words the dictionary file yields: each word is
     * added as a vertex and linked to every listed vertex adjacent to it. When
     * isAdjacent fails on a prefix pair the load stops there, leaving the words
     * and links made so far and the matrices as they were; otherwise the vertex
     * list becomes the graph's own list, the matrices are recomputed, and the
     * number of vertices is returned.
     */
    method PopulateGraph(words: seq<string>) returns (r: Result<int>)
      requires Valid() && |WithWords(graph.vertices, words)| <= MaxValue
      modifies this, graph, graph.nodes
      ensures Valid()
      ensures r.Ok? <==> !PrefixPairAmong(old(graph.vertices) + words, words)
      ensures graph.vertices == WithWords(old(graph.vertices), words[..Loaded(old(graph.vertices), words)])
      ensures forall a, b :: graph.Edge(a, b) <==> old(graph.Edge(a, b)) || LoadLink(old(graph.vertices), words, a, b)
      ensures r.Err? ==> r.failure == IndexOutOfBounds
      ensures forall x :: x in graph.vertices ==> x in old(graph.vertices) || x in words
      ensures |old(graph.vertices)| <= |graph.vertices| && graph.vertices[..|old(graph.vertices)|] == old(graph.vertices)
      ensures r.Ok? ==>
                graph.vertices == WithWords(old(graph.vertices), words) && vertices == graph.vertices &&
                sharesGraphList && r.value == |vertices| && Current()
      ensures r.Ok? && old(Complete(graph)) ==> Complete(graph)
      ensures r.Err? ==>
                distanceMatrix == old(distanceMatrix) && predMatrix == old(predMatrix) &&
                indexed == old(indexed) && snapshot == old(snapshot) && sharesGraphList == old(sharesGraphList)
    {
      ghost var before := graph.vertices;
      var ok := LoadWords(words);
      WithWordsFacts(before, words[..Loaded(before, words)]);
      if !ok {
        return Err(IndexOutOfBounds);
      }
      ShareGraphList();
      ShortestPathPrecomputation();
      return Ok(|vertices|);
    }

    /** vertices = graph.getAllVertices(): from now on the processor's list is the graph's own. */
    method ShareGraphList()
      requires Valid()
      modifies this
      ensures Valid() && vertices == graph.vertices && sharesGraphList
      ensures distanceMatrix == old(distanceMatrix) && predMatrix == old(predMatrix) &&
              indexed == old(indexed) && snapshot == old(snapshot)
    {
      vertices := graph.GetAllVertices();
      sharesGraphList := true;
    }

    /**
     * The loop of populateGraph run on the processor's graph; a list the
     * processor shares with the graph grows with it.
     */
    method LoadWords(words: seq<string>) returns (ok: bool)
      requires Valid() && |WithWords(graph.vertices, words)| <= MaxValue
      modifies this, graph, graph.nodes
      ensures Valid() && |graph.vertices| <= MaxValue
      ensures ok <==> !PrefixPairAmong(old(graph.vertices) + words, words)
      ensures graph.vertices == WithWords(old(graph.vertices), words[..Loaded(old(graph.vertices), words)])
      ensures forall a, b :: graph.Edge(a, b) <==> old(graph.Edge(a, b)) || LoadLink(old(graph.vertices), words, a, b)
      ensures ok ==> graph.vertices == WithWords(old(graph.vertices), words)
      ensures ok && old(Complete(graph)) ==> Complete(graph)
      ensures distanceMatrix == old(distanceMatrix) && predMatrix == old(predMatrix) &&
              indexed == old(indexed) && snapshot == old(snapshot) && sharesGraphList == old(sharesGraphList)
    {
      ghost var before := graph.vertices;
      var n;
      ok, n := AddWords(graph, words);
      WithWordsFacts(before, words[..n]);
      WithWordsPrefix(before, words, n);
      FollowGraphList(before);
      if ok {
        assert words[..n] == words;
      }
    }

    /** A list shared with the graph follows it after the graph's list grew from before. */
    method FollowGraphList(ghost before: seq<string>)
      requires graph.Valid() && EdgesSound(graph)
      requires |before| <= |graph.vertices| && graph.vertices[..|before|] == before
      requires if sharesGraphList then vertices == before else vertices == []
      requires distanceMatrix == null <==> predMatrix == null
      requires distanceMatrix != null ==>
                 |indexed| <= |vertices| && vertices[..|indexed|] == indexed && |indexed| <= MaxValue &&
                 MatricesAt(distanceMatrix, predMatrix, snapshot, indexed, |indexed|)
      modifies this
      ensures Valid()
      ensures vertices == if sharesGraphList then graph.vertices else []
      ensures distanceMatrix == old(distanceMatrix) && predMatrix == old(predMatrix) &&
              indexed == old(indexed) && snapshot == old(snapshot) && sharesGraphList == old(sharesGraphList)
    {
      if sharesGraphList {
        vertices := graph.vertices;
        if distanceMatrix != null {
          assert vertices[..|indexed|] == before[..|indexed|];
        }
      }
    }

    /**
     * getShortestDistance: the distance-matrix entry at the two words' list
     * positions. The matrices must exist, and both words must have been listed
     * when they were computed; an absent word's position is -1.
     */
    method GetShortestDistance(word1: string, word2: string) returns (r: Result<int>)
      requires Valid()
      ensures distanceMatrix == null ==> r == Err(NullPointer)
      ensures distanceMatrix != null ==>
                var i, j := IndexOf(vertices, word1), IndexOf(vertices, word2);
                r == if 0 <= i < |indexed| && 0 <= j < |indexed| then Ok(Dist(snapshot, |indexed|, i, j))
                     else Err(IndexOutOfBounds)
      ensures Current() && word1 in vertices && word2 in vertices ==>
                r.Ok? && ShortestLadderLength(graph, word1, word2, r.value)
    {
      if distanceMatrix == null {
        return Err(NullPointer);
      }
      var i, j := IndexOf(vertices, word1), IndexOf(vertices, word2);
      if !(0 <= i < distanceMatrix.Length0 && 0 <= j < distanceMatrix.Length1) {
        return Err(IndexOutOfBounds);
      }
      r := Ok(distanceMatrix[i, j]);
      if Current() && word1 in vertices && word2 in vertices {
        DistIsLadderLength(graph, snapshot, i, j);
      }
    }

    /**
     * getShortestPath: the later-listed word is made the start, the next-word
     * matrix is followed from it until the next word is the other one, and the
     * list is reversed if the words were swapped. An empty list when no next
     * word is recorded: the same word twice, or an unreachable pair.
     */
    method GetShortestPath(word1: string, word2: string) returns (r: Result<seq<string>>)
      requires Valid()
      ensures predMatrix == null ==> r == Err(NullPointer)
      ensures predMatrix != null ==>
                var i, j := IndexOf(vertices, word1), IndexOf(vertices, word2);
                r == if 0 <= i < |indexed| && 0 <= j < |indexed| then Ok(ShortestPath(snapshot, indexed, i, j))
                     else Err(IndexOutOfBounds)
      ensures Current() && word1 in vertices && word2 in vertices ==>
                r.Ok? &&
                (r.value == [] <==> word1 == word2 || forall l :: !IsLadder(graph, l, word1, word2)) &&
                (r.value != [] ==>
                   IsLadder(graph, r.value, word1, word2) &&
                   forall l :: IsLadder(graph, l, word1, word2) ==> |r.value| <= |l|)
    {
      var i, j := IndexOf(vertices, word1), IndexOf(vertices, word2);
      ghost var i0, j0 := i, j;
      var start, goal := word1, word2;
      var reverse := false;
      if i < j {
        start, goal := word2, word1;
        i, j := j, i;
        reverse := true;
      }
      if predMatrix == null {
        return Err(NullPointer);
      }
      if !(0 <= i < predMatrix.Length0 && 0 <= j < predMatrix.Length1) {
        return Err(IndexOutOfBounds);
      }
      var list := FollowHops(predMatrix, vertices, snapshot, indexed, start, goal, i, j);
      if reverse {
        list := Reverse(list);
      }
      r := Ok(list);
      if Current() && word1 in vertices && word2 in vertices {
        ShortestPathIsLadder(graph, snapshot, i0, j0);
      }
    }
  }

  /**
   * The path-collecting loop of getShortestPath, from position i toward position
   * j: pm holds the last stage of the next-word matrix over A and vs, a prefix of
   * the duplicate-free list vertices in which each next word is looked up.
   */
  method FollowHops(pm: array2<Option<string>>, vertices: seq<string>, ghost A: Adjacency, ghost vs: seq<string>,
                    start: string, goal: string, i: nat, j: nat) returns (list: seq<string>)
    requires WellFormed(A) && |A| <= MaxValue && |vs| == |A| && pm.Length0 == |A| && pm.Length1 == |A|
    requires forall a, b :: 0 <= a < |A| && 0 <= b < |A| ==> pm[a, b] == Hop(A, vs, |A|, a, b)
    requires NoDup(vertices) && |vs| <= |vertices| && vertices[..|vs|] == vs
    requires i < |vs| && j < |vs| && start == vs[i] && goal == vs[j]
    ensures list == HopPath(A, vs, i, j)
  {
    var n := |vs|;
    if pm[i, j].None? {
      return [];
    }
    ghost var tail := HopWords(A, vs, i, j);
    list := [start];
    var cur := i;
    while pm[cur, j] != Some(goal)
      invariant 0 <= cur < n && Next(A, n, cur, j).Some?
      invariant tail == HopWords(A, vs, cur, j)
      invariant list + tail == [start] + HopWords(A, vs, i, j)
      decreases Dist(A, n, cur, j)
    {
      var x := pm[cur, j].value;
      ghost var y := Next(A, n, cur, j).value;
      NextSound(A, n, cur, j);
      NextSound(A, n, y, j);
      assert vertices[..n][y] == vs[y] == x;
      IndexOfDistinct(vertices, y);
      assert tail == [x] + HopWords(A, vs, y, j);
      assert list + tail == (list + [x]) + HopWords(A, vs, y, j);
      list := list + [x];
      tail := HopWords(A, vs, y, j);
      cur := IndexOf(vertices, x);
    }
    NextSound(A, n, cur, j);
    list := list + [goal];
  }
}
