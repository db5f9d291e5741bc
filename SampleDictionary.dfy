/**
 * The seven-word dictionary the program's tests load (CAT, CHAT, CHEAT, WHAT,
 * WHEAT, BAG, WHO), and the distances and paths the tests expect of it.
 */
module SampleDictionary {
  import opened WordProcessor
  import opened Adjacencies
  import opened Lists
  import opened ShortestPaths
  import opened UndirectedGraph
  import opened WordLadder

  const Words: seq<string> := ["CAT", "CHAT", "CHEAT", "WHAT", "WHEAT", "BAG", "WHO"]

  /** One direction of the five ladder links among the words. */
  predicate Link(a: string, b: string) {
    (a == "CAT" && b == "CHAT") || (a == "CHAT" && b == "CHEAT") || (a == "CHAT" && b == "WHAT") ||
    (a == "CHEAT" && b == "WHEAT") || (a == "WHAT" && b == "WHEAT")
  }

  /** The five links, in either direction. */
  predicate Linked(a: string, b: string) {
    Link(a, b) || Link(b, a)
  }

  /** A single replacement leaves no second differing position. */
  lemma SubstitutedDiffersOnce(a: string, b: string, i: nat, j: nat)
    requires i < j < |a| == |b| && a[i] != b[i] && a[j] != b[j]
    ensures !Substituted(a, b)
  {
  }

  /** A deletion keeps the first character unless it deletes it, and likewise the last. */
  lemma DeletedEnds(longer: string, shorter: string)
    requires Deleted(longer, shorter) && shorter != []
    ensures shorter[0] == longer[0] || shorter[0] == longer[1]
    ensures shorter[|shorter| - 1] == longer[|longer| - 1] || shorter[|shorter| - 1] == longer[|shorter| - 1]
  {
    var k :| 0 <= k < |longer| && longer[..k] + longer[k + 1..] == shorter;
    if 0 < k {
      assert shorter[0] == longer[..k][0];
    } else {
      assert shorter[0] == longer[1..][0];
    }
    if k < |shorter| {
      assert shorter[|shorter| - 1] == longer[k + 1..][|shorter| - k - 1];
    } else {
      assert shorter[|shorter| - 1] == longer[..k][|shorter| - 1];
    }
  }

  /**
   * Words the rules cannot join: equal lengths differing at both ends, lengths
   * one apart whose ends rule out every deletion, or lengths further apart.
   */
  predicate FarApart(a: string, b: string) {
    (|a| == |b| && 2 <= |a| && a[0] != b[0] && a[|a| - 1] != b[|b| - 1]) ||
    (|a| == |b| + 1 && EndsDiffer(a, b)) || (|b| == |a| + 1 && EndsDiffer(b, a)) ||
    |a| >= |b| + 2 || |b| >= |a| + 2
  }

  /** Neither end of shorter can have survived a deletion from longer. */
  predicate EndsDiffer(longer: string, shorter: string)
    requires |longer| == |shorter| + 1
  {
    shorter != [] &&
    ((shorter[0] != longer[0] && shorter[0] != longer[1]) ||
     (shorter[|shorter| - 1] != longer[|longer| - 1] && shorter[|shorter| - 1] != longer[|shorter| - 1]))
  }

  /** Far-apart words are not adjacent. */
  lemma FarApartNotAdjacent(a: string, b: string)
    requires FarApart(a, b)
    ensures !Adjacent(a, b)
  {
    if |a| == |b| && 2 <= |a| && a[0] != b[0] && a[|a| - 1] != b[|b| - 1] {
      SubstitutedDiffersOnce(a, b, 0, |a| - 1);
    }
    if Deleted(a, b) {
      DeletedEnds(a, b);
    }
    if Deleted(b, a) {
      DeletedEnds(b, a);
    }
  }

  /** Any two distinct unlinked words of the dictionary are far apart. */
  lemma UnlinkedFarApart(a: string, b: string)
    requires a in Words && b in Words && a != b && !Linked(a, b)
    ensures FarApart(a, b)
  {
  }

  /** Each of the five links joins adjacent words. */
  lemma LinkIsAdjacent(a: string, b: string)
    requires Link(a, b)
    ensures Adjacent(a, b) && Adjacent(b, a)
  {
    LadderExamples();
    AdjacentSymmetric(a, b);
    assert "CHEAT"[0] != "WHEAT"[0] && "CHEAT"[..0] == "WHEAT"[..0] && "CHEAT"[1..] == "WHEAT"[1..];
  }

  /** On the dictionary's words, adjacency is exactly the five links. */
  lemma AdjacentIsLinked(a: string, b: string)
    requires a in Words && b in Words
    ensures Adjacent(a, b) <==> Linked(a, b)
  {
    if Link(a, b) {
      LinkIsAdjacent(a, b);
    } else if Link(b, a) {
      LinkIsAdjacent(b, a);
    } else if a != b {
      UnlinkedFarApart(a, b);
      FarApartNotAdjacent(a, b);
    }
  }

  /** In the prefix case the shorter word's first and last characters reappear in the longer one. */
  lemma PrefixCaseEnds(a: string, b: string)
    requires PrefixCase(a, b)
    ensures |a| == |b| + 1 ==> a[0] == b[0] && a[|b| - 1] == b[|b| - 1]
    ensures |b| == |a| + 1 ==> a[0] == b[0] && a[|a| - 1] == b[|a| - 1]
  {
    if |a| == |b| + 1 {
      assert a[..|b|][|b| - 1] == b[|b| - 1];
    } else {
      assert b[..|a|][|a| - 1] == a[|a| - 1];
    }
  }

  /** No two of the dictionary's words form the prefix case, so loading them raises no error. */
  lemma NoPrefixCase(a: string, b: string)
    requires a in Words && b in Words
    ensures !PrefixCase(a, b)
  {
    if PrefixCase(a, b) {
      PrefixCaseEnds(a, b);
    }
  }

  /** A holds, by position in vs, the adjacency of the dictionary's words that vs lists. */
  ghost predicate WordMatrix(A: Adjacency, vs: seq<string>) {
    |A| == |vs| && (forall i :: 0 <= i < |vs| ==> |A[i]| == |vs| && vs[i] in Words) &&
    forall i, j :: 0 <= i < |vs| && 0 <= j < |vs| ==> A[i][j] == Adjacent(vs[i], vs[j])
  }

  /**
   * The adjacency of the graph a load builds, when it lists only the dictionary's
   * words, is such a matrix.
   */
  lemma GraphMatrix(g: Graph, A: Adjacency)
    requires g.Valid() && EdgesSound(g) && Complete(g) && g.IsAdjacencyOf(A, g.vertices)
    requires forall w :: w in g.vertices ==> w in Words
    ensures WordMatrix(A, g.vertices)
  {
    EdgesAreAdjacency(g);
  }

  /** A holds, by position in vs, the five links. */
  ghost predicate LinkMatrix(A: Adjacency, vs: seq<string>) {
    |A| == |vs| && (forall i :: 0 <= i < |vs| ==> |A[i]| == |vs|) &&
    forall i, j :: 0 <= i < |vs| && 0 <= j < |vs| ==> A[i][j] == Linked(vs[i], vs[j])
  }

  /** Such a matrix is well formed, and its entries are the five links. */
  lemma LinkedMatrix(A: Adjacency, vs: seq<string>)
    requires WordMatrix(A, vs)
    ensures WellFormed(A) && LinkMatrix(A, vs)
  {
    forall i, j | 0 <= i < |vs| && 0 <= j < |vs|
      ensures A[i][j] == Linked(vs[i], vs[j])
    {
      AdjacentIsLinked(vs[i], vs[j]);
    }
  }

  /** Every link from a word of W, listed in vs, leads to a word of W. */
  ghost predicate Closed(A: Adjacency, vs: seq<string>, W: set<string>) {
    forall i, j :: 0 <= i < |vs| && i < |A| && 0 <= j < |A[i]| && A[i][j] && vs[i] in W ==> j < |vs| && vs[j] in W
  }

  /** Links are symmetric and join distinct words, so such a matrix is well formed. */
  lemma LinkMatrixWellFormed(A: Adjacency, vs: seq<string>)
    requires LinkMatrix(A, vs)
    ensures WellFormed(A)
  {
    forall i, j | 0 <= i < |A| && 0 <= j < |A|
      ensures A[i][j] == A[j][i]
    {
      assert A[i][j] == Linked(vs[i], vs[j]) && A[j][i] == Linked(vs[j], vs[i]);
    }
    forall i | 0 <= i < |A|
      ensures !A[i][i]
    {
      assert A[i][i] == Linked(vs[i], vs[i]);
      assert "CHAT"[0] != "WHAT"[0] && "CHEAT"[0] != "WHEAT"[0];
    }
  }

  /** A walk that starts in W, where every link from a word of W leads into W, ends in W. */
  lemma {:induction false} WalkStays(A: Adjacency, vs: seq<string>, W: set<string>, p: seq<nat>)
    requires |A| == |vs| && IsWalk(A, p) && vs[p[0]] in W && Closed(A, vs, W)
    ensures vs[p[|p| - 1]] in W
    decreases |p|
  {
    if |p| > 1 {
      assert p[1] < |A[p[0]]| && A[p[0]][p[1]];
      assert vs[p[1..][0]] in W;
      assert IsWalk(A, p[1..]) by {
        forall m | 0 <= m < |p[1..]| - 1
          ensures p[1..][m + 1] < |A[p[1..][m]]| && A[p[1..][m]][p[1..][m + 1]]
        {
          assert p[1..][m] == p[m + 1] && p[1..][m + 1] == p[m + 2];
        }
      }
      WalkStays(A, vs, W, p[1..]);
    }
  }

  /** No ladder leaves a set of words closed under links, so the distance out of it is MAX_VALUE. */
  lemma Unreachable(A: Adjacency, vs: seq<string>, W: set<string>, i: nat, j: nat)
    requires WellFormed(A) && |A| == |vs| <= MaxValue && i < |vs| && j < |vs|
    requires Closed(A, vs, W)
    requires vs[i] in W && vs[j] !in W
    ensures Dist(A, |A|, i, j) == MaxValue
  {
    DistIsShortest(A, i, j);
    if Dist(A, |A|, i, j) != MaxValue {
      var p :| Links(A, p, i, j);
      WalkStays(A, vs, W, p);
    }
  }

  /** The distance is the length of a walk no other walk undercuts. */
  lemma DistOfShortestWalk(A: Adjacency, p: seq<nat>, i: nat, j: nat)
    requires WellFormed(A) && |A| <= MaxValue && i < |A| && j < |A| && Links(A, p, i, j)
    requires forall q :: Links(A, q, i, j) ==> |p| <= |q|
    ensures Dist(A, |A|, i, j) == |p| - 1
  {
    DistIsShortest(A, i, j);
  }

  /** Neighbours are at distance 1. */
  lemma DistOne(A: Adjacency, i: nat, j: nat)
    requires WellFormed(A) && |A| <= MaxValue && i < |A| && j < |A| && A[i][j]
    ensures Dist(A, |A|, i, j) == 1
  {
    forall q | Links(A, q, i, j) ensures 2 <= |q| {
      assert q[0] == i && q[|q| - 1] == j;
    }
    DistOfShortestWalk(A, [i, j], i, j);
  }

  /** Distinct non-neighbours with a common neighbour m are at distance 2. */
  lemma DistTwo(A: Adjacency, i: nat, m: nat, j: nat)
    requires WellFormed(A) && |A| <= MaxValue && i < |A| && m < |A| && j < |A|
    requires i != j && !A[i][j] && A[i][m] && A[m][j]
    ensures Dist(A, |A|, i, j) == 2
  {
    forall q | Links(A, q, i, j) ensures 3 <= |q| {
      assert q[0] == i && q[|q| - 1] == j;
    }
    DistOfShortestWalk(A, [i, m, j], i, j);
  }

  /** Distinct non-neighbours without a common neighbour, joined by a three-link walk, are at distance 3. */
  lemma DistThree(A: Adjacency, i: nat, m: nat, n: nat, j: nat)
    requires WellFormed(A) && |A| <= MaxValue && i < |A| && m < |A| && n < |A| && j < |A|
    requires i != j && !A[i][j] && A[i][m] && A[m][n] && A[n][j]
    requires forall x :: 0 <= x < |A| && A[i][x] ==> !A[x][j]
    ensures Dist(A, |A|, i, j) == 3
  {
    forall q | Links(A, q, i, j) ensures 4 <= |q| {
      assert q[0] == i && q[|q| - 1] == j;
      if 3 <= |q| {
        assert A[q[0]][q[1]] && A[q[1]][q[2]];
      }
    }
    DistOfShortestWalk(A, [i, m, n, j], i, j);
  }

  /** The positions of the seven words in a listing of them. */
  ghost predicate Listed(vs: seq<string>, cat: nat, chat: nat, cheat: nat, what: nat, wheat: nat, bag: nat, who: nat) {
    cat < |vs| && chat < |vs| && cheat < |vs| && what < |vs| && wheat < |vs| && bag < |vs| && who < |vs| &&
    vs[cat] == "CAT" && vs[chat] == "CHAT" && vs[cheat] == "CHEAT" && vs[what] == "WHAT" &&
    vs[wheat] == "WHEAT" && vs[bag] == "BAG" && vs[who] == "WHO"
  }

  /** The ladder component: CAT, CHAT, CHEAT, WHAT and WHEAT. */
  const Ladder: set<string> := {"CAT", "CHAT", "CHEAT", "WHAT", "WHEAT"}

  /** BAG and WHO lie outside the ladder component. */
  lemma OutsideLadder()
    ensures "BAG" !in Ladder && "WHO" !in Ladder && "WHEAT" !in {"BAG"}
  {
    assert "BAG"[0] != "CAT"[0] && "WHO"[0] != "CAT"[0] && "WHO"[2] != "WHAT"[2];
  }

  /** The five links never leave the ladder component, nor reach BAG. */
  lemma ComponentsClosed(A: Adjacency, vs: seq<string>)
    requires LinkMatrix(A, vs)
    ensures Closed(A, vs, Ladder) && Closed(A, vs, {"BAG"})
  {
  }

  /** The entries of the ladder component's words; CAT's only neighbour is CHAT. */
  lemma LadderEntries(A: Adjacency, vs: seq<string>, cat: nat, chat: nat, cheat: nat, what: nat, wheat: nat)
    requires LinkMatrix(A, vs) && cat < |vs| && chat < |vs| && cheat < |vs| && what < |vs| && wheat < |vs|
    requires vs[cat] == "CAT" && vs[chat] == "CHAT" && vs[cheat] == "CHEAT" && vs[what] == "WHAT" && vs[wheat] == "WHEAT"
    ensures A[chat][what] && A[cheat][chat] && A[what][wheat] && A[cat][chat] && A[chat][cheat] && A[cheat][wheat]
    ensures !A[chat][wheat] && !A[cat][wheat]
    ensures forall x :: 0 <= x < |A| && A[cat][x] ==> vs[x] == "CHAT" && !A[x][wheat]
  {
  }

  /**
   * In any listing of the dictionary, the distances the tests expect: 1 from CHAT
   * to WHAT and from CHEAT to CHAT, 2 from CHAT to WHEAT, and 3 between CAT and
   * WHEAT either way.
   */
  lemma TestDistances(A: Adjacency, vs: seq<string>, cat: nat, chat: nat, cheat: nat, what: nat, wheat: nat, bag: nat, who: nat)
    requires LinkMatrix(A, vs) && |vs| <= MaxValue && Listed(vs, cat, chat, cheat, what, wheat, bag, who)
    ensures WellFormed(A)
    ensures Dist(A, |A|, chat, what) == 1 && Dist(A, |A|, cheat, chat) == 1
    ensures Dist(A, |A|, chat, wheat) == 2
    ensures Dist(A, |A|, cat, wheat) == 3 && Dist(A, |A|, wheat, cat) == 3
  {
    LinkMatrixWellFormed(A, vs);
    LadderEntries(A, vs, cat, chat, cheat, what, wheat);
    DistOne(A, chat, what);
    DistOne(A, cheat, chat);
    DistTwo(A, chat, what, wheat);
    DistThree(A, cat, chat, what, wheat);
    DistSymmetric(A, |A|, cat, wheat);
  }

  /** ... and MAX_VALUE, no ladder, from CAT to BAG or WHO, from CHEAT to WHO and from BAG to WHEAT. */
  lemma TestUnreachable(A: Adjacency, vs: seq<string>, cat: nat, chat: nat, cheat: nat, what: nat, wheat: nat, bag: nat, who: nat)
    requires LinkMatrix(A, vs) && |vs| <= MaxValue && Listed(vs, cat, chat, cheat, what, wheat, bag, who)
    ensures WellFormed(A)
    ensures Dist(A, |A|, cat, bag) == MaxValue && Dist(A, |A|, cat, who) == MaxValue
    ensures Dist(A, |A|, cheat, who) == MaxValue && Dist(A, |A|, bag, wheat) == MaxValue
  {
    LinkMatrixWellFormed(A, vs);
    ComponentsClosed(A, vs);
    OutsideLadder();
    Unreachable(A, vs, Ladder, cat, bag);
    Unreachable(A, vs, Ladder, cat, who);
    Unreachable(A, vs, Ladder, cheat, who);
    Unreachable(A, vs, {"BAG"}, bag, wheat);
  }

  /** A path getShortestPath returns between distinct reachable words spells a shortest walk. */
  lemma ShortestPathWalk(A: Adjacency, vs: seq<string>, i: nat, j: nat) returns (p: seq<nat>)
    requires WellFormed(A) && |A| == |vs| <= MaxValue && i < |vs| && j < |vs|
    requires i != j && Dist(A, |A|, i, j) != MaxValue
    ensures Links(A, p, i, j) && |p| - 1 == Dist(A, |A|, i, j) && ShortestPath(A, vs, i, j) == Spell(vs, p)
  {
    ShortestPathMeaning(A, vs, i, j);
    p :| Links(A, p, i, j) && |p| - 1 == Dist(A, |A|, i, j) && ShortestPath(A, vs, i, j) == Spell(vs, p);
  }

  /** Between words at distance 1 the path is the two words. */
  lemma OneLinkPath(A: Adjacency, vs: seq<string>, i: nat, j: nat)
    requires WellFormed(A) && |A| == |vs| <= MaxValue && i < |vs| && j < |vs|
    requires i != j && Dist(A, |A|, i, j) == 1
    ensures ShortestPath(A, vs, i, j) == [vs[i], vs[j]]
  {
    var p := ShortestPathWalk(A, vs, i, j);
    assert Spell(vs, p) == [vs[p[0]], vs[p[1]]];
  }

  /** Between words at distance 2 the path passes through one common neighbour. */
  lemma TwoLinkPath(A: Adjacency, vs: seq<string>, i: nat, j: nat) returns (m: nat)
    requires WellFormed(A) && |A| == |vs| <= MaxValue && i < |vs| && j < |vs|
    requires i != j && Dist(A, |A|, i, j) == 2
    ensures m < |vs| && A[i][m] && A[m][j] && ShortestPath(A, vs, i, j) == [vs[i], vs[m], vs[j]]
  {
    var p := ShortestPathWalk(A, vs, i, j);
    assert A[p[0]][p[1]] && A[p[1]][p[2]];
    assert Spell(vs, p) == [vs[p[0]], vs[p[1]], vs[p[2]]];
    m := p[1];
  }

  /** Between words at distance 3 the path passes through a neighbour of each end, linked to each other. */
  lemma ThreeLinkPath(A: Adjacency, vs: seq<string>, i: nat, j: nat) returns (m: nat, n: nat)
    requires WellFormed(A) && |A| == |vs| <= MaxValue && i < |vs| && j < |vs|
    requires i != j && Dist(A, |A|, i, j) == 3
    ensures m < |vs| && n < |vs| && A[i][m] && A[m][n] && A[n][j]
    ensures ShortestPath(A, vs, i, j) == [vs[i], vs[m], vs[n], vs[j]]
  {
    var p := ShortestPathWalk(A, vs, i, j);
    assert A[p[0]][p[1]] && A[p[1]][p[2]] && A[p[2]][p[3]];
    assert Spell(vs, p) == [vs[p[0]], vs[p[1]], vs[p[2]], vs[p[3]]];
    m, n := p[1], p[2];
  }

  /** The paths the tests expect between neighbours: [CHAT, WHAT] and [CHEAT, CHAT]. */
  lemma TestNeighbourPaths(A: Adjacency, vs: seq<string>, cat: nat, chat: nat, cheat: nat, what: nat, wheat: nat, bag: nat, who: nat)
    requires LinkMatrix(A, vs) && |vs| <= MaxValue && Listed(vs, cat, chat, cheat, what, wheat, bag, who)
    ensures WellFormed(A)
    ensures ShortestPath(A, vs, chat, what) == ["CHAT", "WHAT"]
    ensures ShortestPath(A, vs, cheat, chat) == ["CHEAT", "CHAT"]
  {
    TestDistances(A, vs, cat, chat, cheat, what, wheat, bag, who);
    OneLinkPath(A, vs, chat, what);
    OneLinkPath(A, vs, cheat, chat);
  }

  /**
   * The path from CHAT to WHEAT passes through WHAT or CHEAT. Which of the two
   * is taken depends on the order of the listing.
   */
  lemma TestPathChatWheat(A: Adjacency, vs: seq<string>, cat: nat, chat: nat, cheat: nat, what: nat, wheat: nat, bag: nat, who: nat)
    requires LinkMatrix(A, vs) && |vs| <= MaxValue && Listed(vs, cat, chat, cheat, what, wheat, bag, who)
    ensures WellFormed(A)
    ensures ShortestPath(A, vs, chat, wheat) in {["CHAT", "WHAT", "WHEAT"], ["CHAT", "CHEAT", "WHEAT"]}
  {
    TestDistances(A, vs, cat, chat, cheat, what, wheat, bag, who);
    var m := TwoLinkPath(A, vs, chat, wheat);
    assert Linked(vs[chat], vs[m]);
    assert Linked(vs[m], vs[wheat]);
  }

  /** The path from CAT to WHEAT goes through CHAT and then WHAT or CHEAT. */
  lemma TestPathCatWheat(A: Adjacency, vs: seq<string>, cat: nat, chat: nat, cheat: nat, what: nat, wheat: nat, bag: nat, who: nat)
    requires LinkMatrix(A, vs) && |vs| <= MaxValue && Listed(vs, cat, chat, cheat, what, wheat, bag, who)
    ensures WellFormed(A)
    ensures ShortestPath(A, vs, cat, wheat) in {["CAT", "CHAT", "WHAT", "WHEAT"], ["CAT", "CHAT", "CHEAT", "WHEAT"]}
  {
    TestDistances(A, vs, cat, chat, cheat, what, wheat, bag, who);
    var m, n := ThreeLinkPath(A, vs, cat, wheat);
    assert Linked(vs[cat], vs[m]);
    assert vs[m] == "CHAT";
    assert Linked(vs[m], vs[n]);
    assert Linked(vs[n], vs[wheat]);
    assert vs[n] == "WHAT" || vs[n] == "CHEAT";
  }

  /** The path from WHEAT to CAT is the path from CAT to WHEAT read backwards. */
  lemma TestPathWheatCat(A: Adjacency, vs: seq<string>, cat: nat, chat: nat, cheat: nat, what: nat, wheat: nat, bag: nat, who: nat)
    requires LinkMatrix(A, vs) && |vs| <= MaxValue && Listed(vs, cat, chat, cheat, what, wheat, bag, who)
    ensures WellFormed(A)
    ensures ShortestPath(A, vs, wheat, cat) in {["WHEAT", "WHAT", "CHAT", "CAT"], ["WHEAT", "CHEAT", "CHAT", "CAT"]}
  {
    TestPathCatWheat(A, vs, cat, chat, cheat, what, wheat, bag, who);
    ShortestPathReversed(A, vs, cat, wheat);
    var P := ShortestPath(A, vs, cat, wheat);
    assert Reverse(P) == [P[3], P[2], P[1], P[0]];
  }

  /** ... and the empty path where no ladder exists: CAT to BAG or WHO, CHEAT to WHO, BAG to WHEAT. */
  lemma TestNoPaths(A: Adjacency, vs: seq<string>, cat: nat, chat: nat, cheat: nat, what: nat, wheat: nat, bag: nat, who: nat)
    requires LinkMatrix(A, vs) && |vs| <= MaxValue && Listed(vs, cat, chat, cheat, what, wheat, bag, who)
    ensures WellFormed(A)
    ensures ShortestPath(A, vs, cat, bag) == [] && ShortestPath(A, vs, cat, who) == []
    ensures ShortestPath(A, vs, cheat, who) == [] && ShortestPath(A, vs, bag, wheat) == []
  {
    TestUnreachable(A, vs, cat, chat, cheat, what, wheat, bag, who);
    ShortestPathMeaning(A, vs, cat, bag);
    ShortestPathMeaning(A, vs, cat, who);
    ShortestPathMeaning(A, vs, cheat, who);
    ShortestPathMeaning(A, vs, bag, wheat);
  }
}
