/** The java.util list operations the core relies on, as functions on sequences. */
module Lists {

  /** No element occurs twice. */
  ghost predicate NoDup<T>(s: seq<T>) {
    forall a, b :: 0 <= a < b < |s| ==> s[a] != s[b]
  }

  /** ArrayList.remove(Object): drops the first occurrence of x, if any. */
  function Remove<T(==)>(s: seq<T>, x: T): (r: seq<T>)
    ensures x in s ==> |r| == |s| - 1
    ensures x !in s ==> r == s
    ensures forall y :: y in r ==> y in s
    ensures forall y :: y in s && y != x ==> y in r
    ensures NoDup(s) ==> NoDup(r) && x !in r
  {
    if s == [] then []
    else if s[0] == x then s[1..]
    else
      var t := Remove(s[1..], x);
      assert NoDup(s) ==> NoDup(s[1..]) && s[0] !in s[1..];
      assert forall b :: 0 < b < |[s[0]] + t| ==> ([s[0]] + t)[b] == t[b - 1];
      [s[0]] + t
  }

  /** ArrayList.indexOf(Object): the position of the first occurrence of x, or -1. */
  function IndexOf<T(==)>(s: seq<T>, x: T): (r: int)
    ensures x !in s <==> r == -1
    ensures x in s ==> 0 <= r < |s| && s[r] == x && x !in s[..r]
  {
    if s == [] then -1
    else if s[0] == x then 0
    else
      var t := IndexOf(s[1..], x);
      if t == -1 then -1
      else
        assert s[..t + 1] == [s[0]] + s[1..][..t];
        t + 1
  }

  /** Collections.reverse. */
  function Reverse<T>(s: seq<T>): (r: seq<T>)
    ensures |r| == |s|
    ensures forall m :: 0 <= m < |s| ==> r[m] == s[|s| - 1 - m]
  {
    if s == [] then [] else Reverse(s[1..]) + [s[0]]
  }

  /** remove(Object) drops the first occurrence itself and keeps the order of the rest. */
  lemma {:induction false} RemoveFirst<T>(s: seq<T>, x: T)
    requires x in s
    ensures Remove(s, x) == s[..IndexOf(s, x)] + s[IndexOf(s, x) + 1..]
  {
    if s[0] != x {
      RemoveFirst(s[1..], x);
      var i := IndexOf(s[1..], x);
      assert s[..i + 1] == [s[0]] + s[1..][..i];
      assert s[i + 2..] == s[1..][i + 1..];
    }
  }

  /** In a list without duplicates the position of an element is the one it occupies. */
  lemma IndexOfDistinct<T>(s: seq<T>, m: nat)
    requires NoDup(s) && m < |s|
    ensures IndexOf(s, s[m]) == m
  {
  }

  /** Reversing twice gives the list back. */
  lemma ReverseReverse<T>(s: seq<T>)
    ensures Reverse(Reverse(s)) == s
  {
    assert forall m :: 0 <= m < |s| ==> Reverse(Reverse(s))[m] == s[m];
  }

  /** Taking one element more extends the prefix by that element. */
  lemma TakeOneMore<T>(s: seq<T>, n: nat)
    requires n < |s|
    ensures s[..n + 1] == s[..n] + [s[n]] && s[..n + 1][..n] == s[..n]
  {
  }
}
