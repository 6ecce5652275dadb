/** Ordering records by a numeric key, largest first: the `sort.Sort` calls
    whose `Less` is "greater than" (godu's `bySize` and `byLen`, finddup's
    `byMtime`). Go's sort is not stable; this one is, which is one of the
    orders Go may produce. */
module Sorting {

  ghost predicate SortedDesc<T>(s: seq<T>, key: T -> int) {
    forall i, j :: 0 <= i < j < |s| ==> key(s[i]) >= key(s[j])
  }

  /** Inserts `x` into a list ahead of the first entry whose key is not
      larger than its own; on a list in descending order this is the
      sorted insertion (`InsertSorted`). */
  function Insert<T>(x: T, s: seq<T>, key: T -> int): (r: seq<T>)
    ensures multiset(r) == multiset(s) + multiset{x}
    ensures |r| == |s| + 1
    ensures |s| > 0 ==> r[0] == x || r[0] == s[0]
  {
    if |s| == 0 then [x]
    else if key(x) >= key(s[0]) then [x] + s
    else
      assert s == [s[0]] + s[1..];
      [s[0]] + Insert(x, s[1..], key)
  }

  /** A sorted list stays sorted behind a head whose key is at least that
      of the list's own head. */
  lemma ConsSorted<T>(a: T, s: seq<T>, key: T -> int)
    requires SortedDesc(s, key) && (|s| > 0 ==> key(a) >= key(s[0]))
    ensures SortedDesc([a] + s, key)
  {
    var r := [a] + s;
    forall i, j | 0 <= i < j < |r|
      ensures key(r[i]) >= key(r[j])
    {
      if i == 0 {
        assert r[j] == s[j - 1];
        assert key(s[0]) >= key(s[j - 1]);
      } else {
        assert r[i] == s[i - 1] && r[j] == s[j - 1];
      }
    }
  }

  /** Inserting into a list in descending order keeps it so. */
  lemma {:induction false} InsertSorted<T>(x: T, s: seq<T>, key: T -> int)
    requires SortedDesc(s, key)
    ensures SortedDesc(Insert(x, s, key), key)
  {
    if |s| == 0 {
    } else if key(x) >= key(s[0]) {
      ConsSorted(x, s, key);
    } else {
      var t := s[1..];
      assert SortedDesc(t, key) by {
        forall i, j | 0 <= i < j < |t|
          ensures key(t[i]) >= key(t[j])
        {
          assert t[i] == s[i + 1] && t[j] == s[j + 1];
        }
      }
      InsertSorted(x, t, key);
      if |t| > 0 {
        assert key(s[0]) >= key(t[0]) by { assert t[0] == s[1]; }
      }
      ConsSorted(s[0], Insert(x, t, key), key);
    }
  }

  /** Sorts into descending key order, keeping every element. */
  function SortDesc<T>(s: seq<T>, key: T -> int): (r: seq<T>)
    ensures SortedDesc(r, key)
    ensures multiset(r) == multiset(s)
    ensures |r| == |s|
  {
    if |s| == 0 then []
    else
      assert s == [s[0]] + s[1..];
      InsertSorted(s[0], SortDesc(s[1..], key), key);
      Insert(s[0], SortDesc(s[1..], key), key)
  }

  /** The head of a sorted list carries the largest key. */
  lemma HeadIsMax<T>(s: seq<T>, key: T -> int, y: T)
    requires SortedDesc(s, key) && y in s
    ensures key(s[0]) >= key(y)
  {
    var j :| 0 <= j < |s| && s[j] == y;
    if j > 0 {
      assert key(s[0]) >= key(s[j]);
    }
  }
}
