/**
 * The word-adjacency test of the word ladder: two words are adjacent when one
 * character replacement, insertion or deletion turns one into the other.
 */
module WordProcessor {
  import opened Outcomes

  /** The number of positions at which two words of equal length differ. */
  function Mismatches(a: string, b: string): (n: nat)
    requires |a| == |b|
    ensures n <= |a|
  {
    if a == [] then 0
    else Mismatches(a[..|a| - 1], b[..|b| - 1]) + (if a[|a| - 1] != b[|b| - 1] then 1 else 0)
  }

  /** b is a with exactly one character replaced. */
  ghost predicate Substituted(a: string, b: string) {
    |a| == |b| &&
    exists k :: 0 <= k < |a| && a[k] != b[k] && a[..k] == b[..k] && a[k + 1..] == b[k + 1..]
  }

  /** shorter is longer with exactly one character deleted. */
  ghost predicate Deleted(longer: string, shorter: string) {
    |longer| == |shorter| + 1 &&
    exists k :: 0 <= k < |longer| && longer[..k] + longer[k + 1..] == shorter
  }

  /**
   * Adjacency as the word-ladder rules define it: distinct, non-empty words
   * one replacement, addition or deletion apart.
   */
  ghost predicate Adjacent(a: string, b: string) {
    a != b && a != [] && b != [] && (Substituted(a, b) || Deleted(a, b) || Deleted(b, a))
  }

  /**
   * The inputs on which the two-pointer scan runs off the shorter word:
   * non-empty words whose lengths differ by one, the shorter a prefix of the longer.
   */
  predicate PrefixCase(a: string, b: string) {
    a != [] && b != [] &&
    ((|a| == |b| + 1 && b == a[..|b|]) || (|b| == |a| + 1 && a == b[..|a|]))
  }

  /** Equal words of equal length have no mismatch, and only they. */
  lemma {:induction false} MismatchesZero(a: string, b: string)
    requires |a| == |b|
    ensures Mismatches(a, b) == 0 <==> a == b
  {
    if a != [] {
      var n := |a| - 1;
      MismatchesZero(a[..n], b[..n]);
      assert a == a[..n] + [a[n]] && b == b[..n] + [b[n]];
    }
  }

  /** Exactly one mismatch means one replacement. */
  lemma {:induction false} OneMismatchIsSubstitution(a: string, b: string)
    requires |a| == |b| && Mismatches(a, b) == 1
    ensures Substituted(a, b)
  {
    var n := |a| - 1;
    var a', b' := a[..n], b[..n];
    if a[n] != b[n] {
      MismatchesZero(a', b');
      assert a[..n] == b[..n] && a[n + 1..] == b[n + 1..];
    } else {
      OneMismatchIsSubstitution(a', b');
      var k :| 0 <= k < n && a'[k] != b'[k] && a'[..k] == b'[..k] && a'[k + 1..] == b'[k + 1..];
      assert a[k + 1..] == a'[k + 1..] + [a[n]];
      assert b[k + 1..] == b'[k + 1..] + [b[n]];
      assert a[..k] == a'[..k] && b[..k] == b'[..k];
    }
  }

  /** One replacement leaves exactly one mismatch. */
  lemma {:induction false} SubstitutionIsOneMismatch(a: string, b: string)
    requires Substituted(a, b)
    ensures Mismatches(a, b) == 1
  {
    var n := |a| - 1;
    var a', b' := a[..n], b[..n];
    var k :| 0 <= k < |a| && a[k] != b[k] && a[..k] == b[..k] && a[k + 1..] == b[k + 1..];
    if k == n {
      MismatchesZero(a', b');
    } else {
      assert a[n] == a[k + 1..][n - k - 1] == b[k + 1..][n - k - 1] == b[n];
      assert a'[..k] == a[..k] && b'[..k] == b[..k];
      assert a'[k + 1..] == a[k + 1..n] && b'[k + 1..] == b[k + 1..n];
      SubstitutionIsOneMismatch(a', b');
    }
  }

  /**
   * Once one character of the longer word has been skipped at position p and a
   * second mismatch appears at (i, i - 1), no single deletion can work.
   */
  lemma SecondMismatchRulesOutDeletion(longer: string, shorter: string, p: nat, i: nat)
    requires |longer| == |shorter| + 1
    requires p < i <= |shorter|
    requires longer[..p] == shorter[..p] && longer[p] != shorter[p]
    requires longer[i] != shorter[i - 1]
    ensures !Deleted(longer, shorter)
  {
    forall k | 0 <= k < |longer|
      ensures longer[..k] + longer[k + 1..] != shorter
    {
      var d := longer[..k] + longer[k + 1..];
      if k > p {
        assert d[p] == longer[p];
      } else {
        assert d[i - 1] == longer[i];
      }
    }
  }

  /**
   * WordProcessor.isAdjacent as written. Where the scan stays inside both words it
   * decides adjacency exactly; on a proper-prefix pair (CAT, CATS) it reads one
   * character past the end of the shorter word and the call ends with an exception.
   */
  method IsAdjacent(word1: string, word2: string) returns (r: Result<bool>)
    ensures PrefixCase(word1, word2) ==> r == Err(IndexOutOfBounds)
    ensures !PrefixCase(word1, word2) ==> r == Ok(Adjacent(word1, word2))
    ensures (word1 == word2 || word1 == [] || word2 == [] ||
             |word1| > |word2| + 1 || |word2| > |word1| + 1) ==> r == Ok(false)
  {
    var lengthGap := if |word1| >= |word2| then |word1| - |word2| else |word2| - |word1|;
    if lengthGap > 1 || word1 == word2 || word1 == [] || word2 == [] {
      return Ok(false);
    } else if |word1| == |word2| {
      var numDiff := 0;
      for i := 0 to |word1|
        invariant numDiff == Mismatches(word1[..i], word2[..i])
      {
        if word1[i] != word2[i] {
          numDiff := numDiff + 1;
        }
        assert word1[..i + 1][..i] == word1[..i] && word2[..i + 1][..i] == word2[..i];
      }
      assert word1[..|word1|] == word1 && word2[..|word2|] == word2;
      if numDiff == 1 {
        OneMismatchIsSubstitution(word1, word2);
      } else if Substituted(word1, word2) {
        SubstitutionIsOneMismatch(word1, word2);
      }
      return Ok(numDiff == 1);
    } else {
      var longer := if |word1| > |word2| then word1 else word2;
      var shorter := if |word1| < |word2| then word1 else word2;
      r := DeletionScan(longer, shorter);
    }
  }

  /**
   * The two-pointer scan of isAdjacent for words whose lengths differ by one: i walks
   * the longer word, j the shorter; the first mismatch skips one character of the
   * longer word, a second one answers false.
   */
  method DeletionScan(longer: string, shorter: string) returns (r: Result<bool>)
    requires |longer| == |shorter| + 1 && shorter != []
    ensures shorter == longer[..|shorter|] ==> r == Err(IndexOutOfBounds)
    ensures shorter != longer[..|shorter|] ==> r == Ok(Deleted(longer, shorter))
  {
    var i, j := 0, 0;
    ghost var skip := 0;
    while i <= |shorter|
      invariant j <= i <= j + 1 && i <= |shorter| + 1
      invariant i == j ==> i <= |shorter| && longer[..i] == shorter[..i]
      invariant i == j + 1 ==> skip <= j && skip < |shorter| && longer[skip] != shorter[skip] &&
                               longer[..skip] == shorter[..skip] && longer[skip + 1..i] == shorter[skip..j]
      decreases |shorter| + 1 - i
    {
      if j >= |shorter| {
        // shorterWord.charAt(j) with j == shorterWord.length()
        assert shorter == longer[..|shorter|];
        return Err(IndexOutOfBounds);
      }
      if longer[i] != shorter[j] && i == j {
        skip := i;
        i := i + 1;
        continue;
      } else if longer[i] != shorter[j] && i != j {
        SecondMismatchRulesOutDeletion(longer, shorter, skip, i);
        assert shorter != longer[..|shorter|] by {
          assert longer[..|shorter|][skip] != shorter[skip];
        }
        return Ok(false);
      }
      assert longer[..i + 1] == longer[..i] + [longer[i]];
      assert shorter[..j + 1] == shorter[..j] + [shorter[j]];
      assert i == j + 1 ==> longer[skip + 1..i + 1] == longer[skip + 1..i] + [longer[i]] &&
                            shorter[skip..j + 1] == shorter[skip..j] + [shorter[j]];
      i, j := i + 1, j + 1;
    }
    assert longer[..skip] + longer[skip + 1..] == shorter by {
      assert longer[skip + 1..] == longer[skip + 1..i];
      assert shorter == shorter[..skip] + shorter[skip..j];
    }
    assert shorter != longer[..|shorter|] by {
      assert longer[..|shorter|][skip] != shorter[skip];
    }
    return Ok(true);
  }

  /** Adjacency does not depend on the order of the two words. */
  lemma AdjacentSymmetric(a: string, b: string)
    ensures Adjacent(a, b) == Adjacent(b, a)
    ensures PrefixCase(a, b) == PrefixCase(b, a)
  {
    if Substituted(a, b) {
      var k :| 0 <= k < |a| && a[k] != b[k] && a[..k] == b[..k] && a[k + 1..] == b[k + 1..];
      assert b[k] != a[k] && b[..k] == a[..k] && b[k + 1..] == a[k + 1..];
    }
    if Substituted(b, a) {
      var k :| 0 <= k < |b| && b[k] != a[k] && b[..k] == a[..k] && b[k + 1..] == a[k + 1..];
      assert a[k] != b[k] && a[..k] == b[..k] && a[k + 1..] == b[k + 1..];
    }
  }

  /** The adjacencies of the five-word dictionary CAT, CHAT, CHEAT, WHAT, WHEAT. */
  lemma LadderExamples()
    ensures Adjacent("CAT", "CHAT") && Adjacent("CHAT", "WHAT")
    ensures Adjacent("CHAT", "CHEAT") && Adjacent("WHAT", "WHEAT")
    ensures PrefixCase("CAT", "CATS") && !PrefixCase("CAT", "CHAT")
  {
    assert "CHAT"[..1] + "CHAT"[2..] == "CAT";
    assert "CHEAT"[..2] + "CHEAT"[3..] == "CHAT";
    assert "WHEAT"[..2] + "WHEAT"[3..] == "WHAT";
    assert "CHAT"[..3][2] != "CAT"[2];
    assert "CHAT"[0] != "WHAT"[0] && "CHAT"[..0] == "WHAT"[..0] && "CHAT"[1..] == "WHAT"[1..];
  }
}
