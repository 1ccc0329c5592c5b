/** Small building blocks shared by the other modules. */
module Basics {

  /** A value that may be absent: PHP's nullable values. */
  datatype Option<T> = None | Some(value: T)

  /** No element occurs twice. */
  predicate Distinct<T(==)>(s: seq<T>)
  {
    forall i, j :: 0 <= i < j < |s| ==> s[i] != s[j]
  }

  /** A sequence has no repeated element exactly when every element occurs at most once. */
  lemma {:induction false} DistinctIffCountsAtMostOne<T>(s: seq<T>)
    ensures Distinct(s) <==> forall x :: multiset(s)[x] <= 1
    decreases |s|
  {
    if s != [] {
      var front, last := s[..|s| - 1], s[|s| - 1];
      assert s == front + [last];
      DistinctIffCountsAtMostOne(front);
      if Distinct(s) {
        assert Distinct(front);
      } else {
        var i, j :| 0 <= i < j < |s| && s[i] == s[j];
        if j < |s| - 1 {
          assert front[i] == front[j];
          var x :| multiset(front)[x] > 1;
          assert multiset(s) == multiset(front) + multiset{last};
          assert multiset(s)[x] > 1;
        } else {
          assert s[i] in front;
          assert multiset(s)[last] == multiset(front)[last] + 1;
        }
      }
    }
  }

  /** Concatenation is associative. */
  lemma AppendAssociative<T>(a: seq<T>, b: seq<T>, c: seq<T>)
    ensures (a + b) + c == a + (b + c)
  {
  }

  /** A sequence around its element at `i`: the prefix through it, and the suffix from it. */
  lemma SplitAt<T>(s: seq<T>, i: int)
    requires 0 <= i < |s|
    ensures s[..i + 1] == s[..i] + [s[i]]
    ensures s[i..] == [s[i]] + s[i + 1..]
  {
  }

  /** What lies before and after one element in the middle of a concatenation. */
  lemma AroundElement<T>(a: seq<T>, x: T, b: seq<T>)
    ensures (a + [x] + b)[..|a|] == a
    ensures (a + [x] + b)[|a| + 1..] == b
  {
  }
}
