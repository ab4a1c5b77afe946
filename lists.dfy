/** The behaviour of the list removal the rosters rely on: removing an element
    drops its first occurrence only, keeps the order of everything else, and
    leaves a list that does not hold the element unchanged. */
module Lists {

  /** Removal of the first element equal to `x`; a no-op when there is none. */
  function RemoveFirst<T(==)>(s: seq<T>, x: T): (r: seq<T>)
    ensures x !in s ==> r == s
    ensures x in s ==> |r| == |s| - 1
  {
    if s == [] then []
    else if s[0] == x then s[1..]
    else [s[0]] + RemoveFirst(s[1..], x)
  }

  /** Removal takes exactly one occurrence of `x` when there is one, and no
      occurrence of any other element. */
  lemma {:induction false} RemoveFirstCount<T>(s: seq<T>, x: T, y: T)
    ensures multiset(RemoveFirst(s, x))[y] == if y == x && x in s then multiset(s)[y] - 1 else multiset(s)[y]
  {
    if s != [] {
      assert s == [s[0]] + s[1..];
      if s[0] != x {
        RemoveFirstCount(s[1..], x, y);
      }
    }
  }

  /** The position of the first occurrence of `x`. */
  function FirstIndex<T(==)>(s: seq<T>, x: T): (i: nat)
    requires x in s
    ensures i < |s| && s[i] == x && x !in s[..i]
  {
    if s[0] == x then 0
    else
      var j := FirstIndex(s[1..], x);
      assert s[..j + 1] == [s[0]] + s[1..][..j];
      j + 1
  }

  /** Removal is cutting out the element at the first index of `x`: the
      elements before and after it stay where they were, in their order. */
  lemma {:induction false} RemoveFirstIsSplice<T>(s: seq<T>, x: T)
    requires x in s
    ensures RemoveFirst(s, x) == s[..FirstIndex(s, x)] + s[FirstIndex(s, x) + 1..]
  {
    if s[0] != x {
      RemoveFirstIsSplice(s[1..], x);
      var j := FirstIndex(s[1..], x);
      assert s[..j + 1] == [s[0]] + s[1..][..j];
      assert s[j + 2..] == s[1..][j + 1..];
    }
  }

  /** `k` removals of `x` in a row, as `k` deliveries of one notification do. */
  function RemoveFirstTimes<T(==)>(s: seq<T>, x: T, k: nat): seq<T>
  {
    if k == 0 then s else RemoveFirst(RemoveFirstTimes(s, x, k - 1), x)
  }

  /** Each removal takes one occurrence of `x` while there is one; no other
      element is taken. */
  lemma {:induction false} RemoveFirstTimesCount<T>(s: seq<T>, x: T, k: nat, y: T)
    ensures multiset(RemoveFirstTimes(s, x, k))[y] == if y != x then multiset(s)[y] else if multiset(s)[x] >= k then multiset(s)[x] - k else 0
  {
    if k > 0 {
      RemoveFirstTimesCount(s, x, k - 1, y);
      RemoveFirstCount(RemoveFirstTimes(s, x, k - 1), x, y);
    }
  }

  /** The list with every occurrence of `x` dropped and the rest in order. */
  function Without<T(==)>(s: seq<T>, x: T): (r: seq<T>)
  {
    if s == [] then []
    else if s[0] == x then Without(s[1..], x)
    else [s[0]] + Without(s[1..], x)
  }

  lemma {:induction false} WithoutDropsExactlyX<T>(s: seq<T>, x: T)
    ensures x !in Without(s, x)
    ensures multiset(Without(s, x)) == multiset(s)[x := 0]
  {
    if s != [] {
      WithoutDropsExactlyX(s[1..], x);
      assert s == [s[0]] + s[1..];
    }
  }

  /** Removing from a list whose head is some other element leaves the head. */
  lemma {:induction false} RemoveFirstTimesKeepsOtherHead<T>(s: seq<T>, x: T, k: nat)
    requires s != [] && s[0] != x
    ensures RemoveFirstTimes(s, x, k) == [s[0]] + RemoveFirstTimes(s[1..], x, k)
  {
    if k > 0 {
      RemoveFirstTimesKeepsOtherHead(s, x, k - 1);
      var t := RemoveFirstTimes(s[1..], x, k - 1);
      var u := [s[0]] + t;
      assert u[0] == s[0] && u[1..] == t;
      assert RemoveFirst(u, x) == [s[0]] + RemoveFirst(t, x);
    }
  }

  /** When the head is `x`, the first of the removals takes it. */
  lemma {:induction false} RemoveFirstTimesTakesHead<T>(s: seq<T>, x: T, k: nat)
    requires s != [] && s[0] == x && k > 0
    ensures RemoveFirstTimes(s, x, k) == RemoveFirstTimes(s[1..], x, k - 1)
  {
    if k > 1 {
      RemoveFirstTimesTakesHead(s, x, k - 1);
    }
  }

  /** As many removals as there are occurrences (or more) drop them all, and
      the remaining elements keep their order. */
  lemma {:induction false} EnoughRemovalsDropAll<T>(s: seq<T>, x: T, k: nat)
    requires multiset(s)[x] <= k
    ensures RemoveFirstTimes(s, x, k) == Without(s, x)
  {
    if s == [] {
      RemoveFirstTimesOfEmpty(x, k);
    } else {
      assert s == [s[0]] + s[1..];
      if s[0] == x {
        RemoveFirstTimesTakesHead(s, x, k);
        EnoughRemovalsDropAll(s[1..], x, k - 1);
      } else {
        RemoveFirstTimesKeepsOtherHead(s, x, k);
        EnoughRemovalsDropAll(s[1..], x, k);
      }
    }
  }

  lemma {:induction false} RemoveFirstTimesOfEmpty<T>(x: T, k: nat)
    ensures RemoveFirstTimes([], x, k) == []
  {
    if k > 0 {
      RemoveFirstTimesOfEmpty(x, k - 1);
    }
  }
}
