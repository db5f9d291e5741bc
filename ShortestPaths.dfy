/**
 * The all-pairs shortest-path computation (Floyd-Warshall with next-hop
 * tracking) over an unweighted, undirected adjacency, stated stage by stage as
 * functions, with the proof that its last stage gives shortest edge counts and
 * that following next hops walks a shortest path.
 */
module ShortestPaths {
  import opened Outcomes
  import opened Lists
  import opened Adjacencies

  /** Integer.MAX_VALUE, the distance of an unreachable pair. */
  const MaxValue: int := 0x7fff_ffff

  /**
   * The test each stage applies to the pair (i, j) with intermediate c: the three
   * are distinct, neither leg is MAX_VALUE, and going through c is shorter.
   */
  predicate Relaxes(i: nat, j: nat, c: nat, dij: int, dic: int, dcj: int) {
    i != c && j != c && j != i && dic != MaxValue && dcj != MaxValue && dij > dic + dcj
  }

  /**
   * The distance matrix after the stages for intermediates 0 .. k-1: stage 0 is 0 on
   * the diagonal, 1 for an edge, MAX_VALUE otherwise.
   */
  function Dist(A: Adjacency, k: nat, i: nat, j: nat): (d: int)
    requires WellFormed(A) && k <= |A| && i < |A| && j < |A|
    ensures 0 <= d <= MaxValue
    ensures i == j ==> d == 0
    decreases k
  {
    if k == 0 then
      if i == j then 0 else if A[i][j] then 1 else MaxValue
    else
      var c := k - 1;
      if Relaxes(i, j, c, Dist(A, c, i, j), Dist(A, c, i, c), Dist(A, c, c, j))
      then Dist(A, c, i, c) + Dist(A, c, c, j)
      else Dist(A, c, i, j)
  }

  /**
   * The next-hop matrix after the same stages: stage 0 names j for an edge and
   * nothing otherwise (the diagonal included); an improvement through c takes the
   * next hop from i toward c.
   */
  function Next(A: Adjacency, k: nat, i: nat, j: nat): (x: Option<nat>)
    requires WellFormed(A) && k <= |A| && i < |A| && j < |A|
    ensures x.Some? ==> x.value < |A|
    decreases k
  {
    if k == 0 then
      if i != j && A[i][j] then Some(j) else None
    else
      var c := k - 1;
      if Relaxes(i, j, c, Dist(A, c, i, j), Dist(A, c, i, c), Dist(A, c, c, j))
      then Next(A, c, i, c)
      else Next(A, c, i, j)
  }

  /** p is a walk: a non-empty sequence of positions, each linked to the next. */
  ghost predicate IsWalk(A: Adjacency, p: seq<nat>) {
    |p| >= 1 &&
    (forall m :: 0 <= m < |p| ==> p[m] < |A|) &&
    (forall m :: 0 <= m < |p| - 1 ==> p[m + 1] < |A[p[m]]| && A[p[m]][p[m + 1]])
  }

  /** p walks from i to j; its length is |p| - 1 edges. */
  ghost predicate Links(A: Adjacency, p: seq<nat>, i: nat, j: nat) {
    IsWalk(A, p) && p[0] == i && p[|p| - 1] == j
  }

  /** Every intermediate position of p is below k. */
  ghost predicate Through(p: seq<nat>, k: nat) {
    forall m :: 0 < m < |p| - 1 ==> p[m] < k
  }

  ghost predicate Reachable(A: Adjacency, i: nat, j: nat) {
    exists p :: Links(A, p, i, j)
  }

  /** One stage never increases a distance, and bounds it by the two legs through c. */
  lemma DistStep(A: Adjacency, c: nat, x: nat, j: nat)
    requires WellFormed(A) && c < |A| && x < |A| && j < |A|
    ensures Dist(A, c + 1, x, j) <= Dist(A, c, x, j)
    ensures Dist(A, c, x, c) != MaxValue && Dist(A, c, c, j) != MaxValue ==>
              Dist(A, c + 1, x, j) <= Dist(A, c, x, c) + Dist(A, c, c, j)
  {
  }

  /** Stage c + 1 leaves row c and column c of stage c as they were. */
  lemma PivotUnchanged(A: Adjacency, c: nat, x: nat)
    requires WellFormed(A) && c < |A| && x < |A|
    ensures Dist(A, c + 1, x, c) == Dist(A, c, x, c) && Dist(A, c + 1, c, x) == Dist(A, c, c, x)
    ensures Next(A, c + 1, x, c) == Next(A, c, x, c) && Next(A, c + 1, c, x) == Next(A, c, c, x)
  {
  }

  /** No stage exceeds the distance it started from. */
  lemma {:induction false} DistBelowFirstStage(A: Adjacency, k: nat, i: nat, j: nat)
    requires WellFormed(A) && k <= |A| && i < |A| && j < |A|
    ensures Dist(A, k, i, j) <= Dist(A, 0, i, j)
    decreases k
  {
    if k > 0 {
      DistStep(A, k - 1, i, j);
      DistBelowFirstStage(A, k - 1, i, j);
    }
  }

  /** Every stage of the distance matrix is symmetric. */
  lemma {:induction false} DistSymmetric(A: Adjacency, k: nat, i: nat, j: nat)
    requires WellFormed(A) && k <= |A| && i < |A| && j < |A|
    ensures Dist(A, k, i, j) == Dist(A, k, j, i)
    decreases k
  {
    if k > 0 {
      var c := k - 1;
      DistSymmetric(A, c, i, j);
      DistSymmetric(A, c, i, c);
      DistSymmetric(A, c, c, j);
    }
  }

  /** Two walks that meet at a position below k join into one walk through k. */
  lemma JoinWalks(A: Adjacency, p: seq<nat>, q: seq<nat>, k: nat)
    requires IsWalk(A, p) && IsWalk(A, q) && p[|p| - 1] == q[0]
    requires Through(p, k) && Through(q, k) && q[0] < k
    ensures IsWalk(A, p + q[1..]) && Through(p + q[1..], k)
    ensures (p + q[1..])[0] == p[0] && (p + q[1..])[|p| + |q| - 2] == q[|q| - 1]
    ensures |p + q[1..]| == |p| + |q| - 1
  {
    var r := p + q[1..];
    assert forall m :: |p| - 1 <= m < |r| ==> r[m] == q[m - |p| + 1];
  }

  /** A finite entry of stage k is the length of a walk whose intermediates are below k. */
  lemma {:induction false} DistSound(A: Adjacency, k: nat, i: nat, j: nat) returns (p: seq<nat>)
    requires WellFormed(A) && k <= |A| && i < |A| && j < |A|
    requires Dist(A, k, i, j) != MaxValue
    ensures Links(A, p, i, j) && Through(p, k) && |p| - 1 == Dist(A, k, i, j)
    decreases k
  {
    if k == 0 {
      p := if i == j then [i] else [i, j];
    } else {
      var c := k - 1;
      if Relaxes(i, j, c, Dist(A, c, i, j), Dist(A, c, i, c), Dist(A, c, c, j)) {
        var p1 := DistSound(A, c, i, c);
        var p2 := DistSound(A, c, c, j);
        JoinWalks(A, p1, p2, k);
        p := p1 + p2[1..];
      } else {
        p := DistSound(A, c, i, j);
      }
    }
  }

  /**
   * A walk without repeats whose intermediates are below c + 1 and that passes c at
   * position m splits there into two such walks whose intermediates are below c.
   */
  lemma SplitAt(A: Adjacency, p: seq<nat>, k: nat, m: nat)
    requires IsWalk(A, p) && Through(p, k) && NoDup(p) && 0 < m < |p| - 1 && p[m] == k - 1
    ensures Links(A, p[..m + 1], p[0], k - 1) && Through(p[..m + 1], k - 1) && NoDup(p[..m + 1])
    ensures Links(A, p[m..], k - 1, p[|p| - 1]) && Through(p[m..], k - 1) && NoDup(p[m..])
  {
    SplitPrefix(A, p, k, m);
    SplitSuffix(A, p, k, m);
  }

  lemma SplitPrefix(A: Adjacency, p: seq<nat>, k: nat, m: nat)
    requires IsWalk(A, p) && Through(p, k) && NoDup(p) && 0 < m < |p| - 1 && p[m] == k - 1
    ensures Links(A, p[..m + 1], p[0], k - 1) && Through(p[..m + 1], k - 1) && NoDup(p[..m + 1])
  {
    assert forall n :: 0 < n < m ==> p[n] != p[m];
  }

  lemma SplitSuffix(A: Adjacency, p: seq<nat>, k: nat, m: nat)
    requires IsWalk(A, p) && Through(p, k) && NoDup(p) && 0 < m < |p| - 1 && p[m] == k - 1
    ensures Links(A, p[m..], k - 1, p[|p| - 1]) && Through(p[m..], k - 1) && NoDup(p[m..])
  {
    var suf := p[m..];
    assert forall n :: 0 <= n < |suf| ==> suf[n] == p[n + m];
    assert forall n :: m < n < |p| ==> p[n] != p[m];
    forall n | 0 <= n < |suf| - 1
      ensures suf[n + 1] < |A[suf[n]]| && A[suf[n]][suf[n + 1]]
    {
      assert suf[n] == p[n + m] && suf[n + 1] == p[n + m + 1];
    }
  }

  /**
   * No walk without repeated positions whose intermediates are below k is shorter
   * than the stage-k entry.
   */
  lemma {:induction false} DistOptimal(A: Adjacency, k: nat, i: nat, j: nat, p: seq<nat>)
    requires WellFormed(A) && k <= |A| && i < |A| && j < |A|
    requires Links(A, p, i, j) && Through(p, k) && NoDup(p) && |p| - 1 < MaxValue
    ensures Dist(A, k, i, j) != MaxValue && Dist(A, k, i, j) <= |p| - 1
    decreases k
  {
    if |p| <= 2 {
      DistBelowFirstStage(A, k, i, j);
      assert |p| == 2 ==> A[p[0]][p[1]] && p[0] != p[1];
    } else {
      assert p[1] < k;
      var c := k - 1;
      if m :| 0 < m < |p| - 1 && p[m] == c {
        SplitAt(A, p, k, m);
        DistOptimal(A, c, i, c, p[..m + 1]);
        DistOptimal(A, c, c, j, p[m..]);
        DistStep(A, c, i, j);
      } else {
        assert Through(p, c);
        DistOptimal(A, c, i, j, p);
        DistStep(A, c, i, j);
      }
    }
  }

  /** Cutting the loop p[a..b] out of a walk, where p[a] == p[b], leaves a shorter walk. */
  lemma CutLoop(A: Adjacency, p: seq<nat>, k: nat, a: nat, b: nat)
    requires IsWalk(A, p) && Through(p, k) && a < b < |p| && p[a] == p[b]
    ensures var p' := p[..a] + p[b..];
              IsWalk(A, p') && Through(p', k) && |p'| < |p| &&
              p'[0] == p[0] && p'[|p'| - 1] == p[|p| - 1]
  {
    var p' := p[..a] + p[b..];
    assert forall m :: 0 <= m < a ==> p'[m] == p[m];
    assert forall m :: a <= m < |p'| ==> p'[m] == p[m - a + b];
    forall m | 0 <= m < |p'| - 1
      ensures p'[m + 1] < |A[p'[m]]| && A[p'[m]][p'[m + 1]]
    {
      if m + 1 < a {
        assert p'[m] == p[m] && p'[m + 1] == p[m + 1];
      } else if m + 1 == a {
        assert p'[m] == p[a - 1] && p'[m + 1] == p[b] == p[a];
      } else {
        assert p'[m] == p[m - a + b] && p'[m + 1] == p[m - a + b + 1];
      }
    }
  }

  /** Cutting out the loops of a walk leaves a walk with no repeated position. */
  lemma Shorten(A: Adjacency, p: seq<nat>, k: nat) returns (q: seq<nat>)
    requires IsWalk(A, p) && Through(p, k)
    ensures IsWalk(A, q) && Through(q, k) && NoDup(q)
    ensures q[0] == p[0] && q[|q| - 1] == p[|p| - 1] && |q| <= |p|
    decreases |p|
  {
    if NoDup(p) {
      q := p;
    } else {
      var a, b :| 0 <= a < b < |p| && p[a] == p[b];
      CutLoop(A, p, k, a, b);
      q := Shorten(A, p[..a] + p[b..], k);
    }
  }

  /** A sequence of distinct naturals below n has at most n elements. */
  lemma {:induction false} DistinctBound(p: seq<nat>, n: nat)
    requires NoDup(p) && forall y :: y in p ==> y < n
    ensures |p| <= n
    decreases n
  {
    if p != [] {
      assert p[0] in p;
      var p' := Remove<nat>(p, n - 1);
      DistinctBound(p', n - 1);
    }
  }

  /**
   * After the last stage the matrix holds shortest edge counts: MAX_VALUE exactly
   * for unreachable pairs, otherwise the length of a walk no walk undercuts.
   */
  lemma DistIsShortest(A: Adjacency, i: nat, j: nat)
    requires WellFormed(A) && |A| <= MaxValue && i < |A| && j < |A|
    ensures Dist(A, |A|, i, j) != MaxValue <==> Reachable(A, i, j)
    ensures forall p :: Links(A, p, i, j) ==> Dist(A, |A|, i, j) <= |p| - 1
    ensures Dist(A, |A|, i, j) != MaxValue ==>
              exists p :: Links(A, p, i, j) && |p| - 1 == Dist(A, |A|, i, j)
  {
    var n := |A|;
    forall p | Links(A, p, i, j)
      ensures Dist(A, n, i, j) != MaxValue && Dist(A, n, i, j) <= |p| - 1
    {
      var q := Shorten(A, p, n);
      DistinctBound(q, n);
      DistOptimal(A, n, i, j, q);
    }
    if Dist(A, n, i, j) != MaxValue {
      var p := DistSound(A, n, i, j);
    }
  }

  /** Shortest distances obey the triangle inequality: a detour through v is never shorter. */
  lemma DistTriangle(A: Adjacency, u: nat, v: nat, w: nat)
    requires WellFormed(A) && |A| <= MaxValue && u < |A| && v < |A| && w < |A|
    requires Dist(A, |A|, u, v) != MaxValue && Dist(A, |A|, v, w) != MaxValue
    ensures Dist(A, |A|, u, w) <= Dist(A, |A|, u, v) + Dist(A, |A|, v, w)
  {
    var p := DistSound(A, |A|, u, v);
    var q := DistSound(A, |A|, v, w);
    JoinWalks(A, p, q, |A|);
    DistIsShortest(A, u, w);
    assert Links(A, p + q[1..], u, w);
  }

  /**
   * Every finite entry at every stage is below the number of vertices, so each
   * sum the stages form is below 2 * |A| and fits in an int when |A| <= 2^30.
   */
  lemma DistBounded(A: Adjacency, k: nat, i: nat, j: nat)
    requires WellFormed(A) && k <= |A| && |A| <= MaxValue && i < |A| && j < |A|
    ensures Dist(A, k, i, j) == MaxValue || Dist(A, k, i, j) < |A|
  {
    if Dist(A, k, i, j) != MaxValue {
      var p := DistSound(A, k, i, j);
      var q := Shorten(A, p, k);
      DistinctBound(q, |A|);
      DistOptimal(A, k, i, j, q);
    }
  }

  /**
   * The next-hop invariant of every stage: a hop is recorded exactly for distinct
   * pairs at finite distance, and it is a neighbour of i strictly closer to j.
   */
  lemma {:induction false} NextSound(A: Adjacency, k: nat, i: nat, j: nat)
    requires WellFormed(A) && k <= |A| && i < |A| && j < |A|
    ensures Next(A, k, i, j).Some? <==> i != j && Dist(A, k, i, j) != MaxValue
    ensures Next(A, k, i, j).Some? ==>
              var x := Next(A, k, i, j).value;
              A[i][x] && Dist(A, k, x, j) != MaxValue && Dist(A, k, x, j) < Dist(A, k, i, j)
    decreases k
  {
    if k > 0 {
      var c := k - 1;
      NextSound(A, c, i, j);
      NextSound(A, c, i, c);
      if Relaxes(i, j, c, Dist(A, c, i, j), Dist(A, c, i, c), Dist(A, c, c, j)) {
        DistStep(A, c, Next(A, c, i, c).value, j);
      } else if Next(A, c, i, j).Some? {
        DistStep(A, c, Next(A, c, i, j).value, j);
      }
    }
  }

  /** After the last stage the next hop is exactly one edge closer to j. */
  lemma NextOnShortest(A: Adjacency, i: nat, j: nat)
    requires WellFormed(A) && |A| <= MaxValue && i < |A| && j < |A|
    requires Next(A, |A|, i, j).Some?
    ensures Dist(A, |A|, Next(A, |A|, i, j).value, j) == Dist(A, |A|, i, j) - 1
  {
    var x := Next(A, |A|, i, j).value;
    NextSound(A, |A|, i, j);
    DistIsShortest(A, x, j);
    var q :| Links(A, q, x, j) && |q| - 1 == Dist(A, |A|, x, j);
    assert Links(A, [i] + q, i, j) by {
      assert forall m :: 1 <= m < |q| + 1 ==> ([i] + q)[m] == q[m - 1];
    }
    DistIsShortest(A, i, j);
  }

  /** The words at the positions of p. */
  function Spell(vs: seq<string>, p: seq<nat>): (r: seq<string>)
    requires forall m :: 0 <= m < |p| ==> p[m] < |vs|
    ensures |r| == |p| && forall m :: 0 <= m < |p| ==> r[m] == vs[p[m]]
  {
    if p == [] then [] else [vs[p[0]]] + Spell(vs, p[1..])
  }

  /** The walk that follows next hops from i until it reaches j. */
  ghost function SuccessorWalk(A: Adjacency, i: nat, j: nat): (w: seq<nat>)
    requires WellFormed(A) && |A| <= MaxValue && i < |A| && j < |A|
    requires Next(A, |A|, i, j).Some?
    ensures Links(A, w, i, j) && |w| - 1 == Dist(A, |A|, i, j)
    decreases Dist(A, |A|, i, j)
  {
    NextSound(A, |A|, i, j);
    NextOnShortest(A, i, j);
    var x := Next(A, |A|, i, j).value;
    if x == j then [i, j]
    else
      NextSound(A, |A|, x, j);
      var rest := SuccessorWalk(A, x, j);
      assert forall m :: 1 <= m < |rest| + 1 ==> ([i] + rest)[m] == rest[m - 1];
      [i] + rest
  }

  /** The words after i along the next hops from i to j, as the loop of getShortestPath appends them. */
  ghost function HopWords(A: Adjacency, vs: seq<string>, i: nat, j: nat): seq<string>
    requires WellFormed(A) && |vs| == |A| && i < |A| && j < |A|
    requires Next(A, |A|, i, j).Some?
    decreases Dist(A, |A|, i, j)
  {
    NextSound(A, |A|, i, j);
    var x := Next(A, |A|, i, j).value;
    if x == j then [vs[j]]
    else
      NextSound(A, |A|, x, j);
      [vs[x]] + HopWords(A, vs, x, j)
  }

  /** Those words, after the word at i, spell the successor walk. */
  lemma {:induction false} HopWordsSpellWalk(A: Adjacency, vs: seq<string>, i: nat, j: nat)
    requires WellFormed(A) && |A| <= MaxValue && |vs| == |A| && i < |A| && j < |A|
    requires Next(A, |A|, i, j).Some?
    ensures [vs[i]] + HopWords(A, vs, i, j) == Spell(vs, SuccessorWalk(A, i, j))
    decreases Dist(A, |A|, i, j)
  {
    NextSound(A, |A|, i, j);
    var x := Next(A, |A|, i, j).value;
    if x != j {
      NextSound(A, |A|, x, j);
      HopWordsSpellWalk(A, vs, x, j);
      var rest := SuccessorWalk(A, x, j);
      assert SuccessorWalk(A, i, j) == [i] + rest;
      assert Spell(vs, [i] + rest) == [vs[i]] + Spell(vs, rest);
    }
  }

  /** The walk from i toward j as the loop of getShortestPath collects it, or [] when no hop is recorded. */
  ghost function HopPath(A: Adjacency, vs: seq<string>, i: nat, j: nat): seq<string>
    requires WellFormed(A) && |A| <= MaxValue && |vs| == |A| && i < |A| && j < |A|
  {
    if Next(A, |A|, i, j).None? then [] else [vs[i]] + HopWords(A, vs, i, j)
  }

  /**
   * getShortestPath on positions i and j: the walk always starts from the later
   * position and is reversed when that is j, so that it reads from i to j.
   */
  ghost function ShortestPath(A: Adjacency, vs: seq<string>, i: nat, j: nat): seq<string>
    requires WellFormed(A) && |A| <= MaxValue && |vs| == |A| && i < |A| && j < |A|
  {
    if i < j then Reverse(HopPath(A, vs, j, i)) else HopPath(A, vs, i, j)
  }

  /** A walk read backwards is a walk, since edges are undirected. */
  lemma ReversedWalk(A: Adjacency, p: seq<nat>, i: nat, j: nat)
    requires WellFormed(A) && Links(A, p, i, j)
    ensures Links(A, Reverse(p), j, i)
  {
    var r, n := Reverse(p), |p|;
    forall m | 0 <= m < n - 1
      ensures r[m + 1] < |A[r[m]]| && A[r[m]][r[m + 1]]
    {
      assert r[m] == p[n - 1 - m] && r[m + 1] == p[n - 2 - m];
      assert A[p[n - 2 - m]][p[n - 1 - m]];
    }
  }

  /** Asking for the path the other way round gives the same words in reverse. */
  lemma ShortestPathReversed(A: Adjacency, vs: seq<string>, i: nat, j: nat)
    requires WellFormed(A) && |A| <= MaxValue && |vs| == |A| && i < |A| && j < |A|
    ensures ShortestPath(A, vs, j, i) == Reverse(ShortestPath(A, vs, i, j))
  {
    if i < j {
      ReverseReverse(HopPath(A, vs, j, i));
    } else if j < i {
      ReverseReverse(HopPath(A, vs, i, j));
    } else {
      NextSound(A, |A|, i, i);
    }
  }

  /** The hop path is empty exactly when no next hop is recorded, and else spells the successor walk. */
  lemma HopPathMeaning(A: Adjacency, vs: seq<string>, i: nat, j: nat)
    requires WellFormed(A) && |A| <= MaxValue && |vs| == |A| && i < |A| && j < |A|
    ensures HopPath(A, vs, i, j) == [] <==> i == j || Dist(A, |A|, i, j) == MaxValue
    ensures Next(A, |A|, i, j).Some? ==> HopPath(A, vs, i, j) == Spell(vs, SuccessorWalk(A, i, j))
  {
    NextSound(A, |A|, i, j);
    if Next(A, |A|, i, j).Some? {
      HopWordsSpellWalk(A, vs, i, j);
    }
  }

  /** Spelling a reversed walk gives the spelled walk reversed. */
  lemma SpellReverse(vs: seq<string>, p: seq<nat>)
    requires forall m :: 0 <= m < |p| ==> p[m] < |vs|
    ensures Spell(vs, Reverse(p)) == Reverse(Spell(vs, p))
  {
  }

  /**
   * What getShortestPath returns: nothing for the same position twice or an
   * unreachable pair; otherwise the words of a shortest walk from i to j.
   */
  lemma ShortestPathMeaning(A: Adjacency, vs: seq<string>, i: nat, j: nat)
    requires WellFormed(A) && |A| <= MaxValue && |vs| == |A| && i < |A| && j < |A|
    ensures ShortestPath(A, vs, i, j) == [] <==> i == j || Dist(A, |A|, i, j) == MaxValue
    ensures ShortestPath(A, vs, i, j) != [] ==>
              exists p :: Links(A, p, i, j) && |p| - 1 == Dist(A, |A|, i, j) &&
                          ShortestPath(A, vs, i, j) == Spell(vs, p)
  {
    DistSymmetric(A, |A|, i, j);
    if i < j {
      HopPathMeaning(A, vs, j, i);
      NextSound(A, |A|, j, i);
      if Next(A, |A|, j, i).Some? {
        var w := SuccessorWalk(A, j, i);
        ReversedWalk(A, w, j, i);
        SpellReverse(vs, w);
        assert Links(A, Reverse(w), i, j);
      }
    } else {
      HopPathMeaning(A, vs, i, j);
      NextSound(A, |A|, i, j);
      if Next(A, |A|, i, j).Some? {
        assert Links(A, SuccessorWalk(A, i, j), i, j);
      }
    }
  }
}
