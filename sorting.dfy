/** std::sort with a comparator `key(a) < key(b)`: the result is ordered by
    the key and is a permutation of the input. The library does not promise
    stability, so nothing is said about the order of elements with equal keys. */
module Sorting {

  ghost predicate SortedBy<T>(s: seq<T>, key: T -> int)
  {
    forall i, j :: 0 <= i < j < |s| ==> key(s[i]) <= key(s[j])
  }

  /** `x` put in front of the first element of `s` whose key is not smaller. */
  function Insert<T>(s: seq<T>, x: T, key: T -> int): (r: seq<T>)
    ensures multiset(r) == multiset(s) + multiset{x}
  {
    if s == [] then [x]
    else if key(x) <= key(s[0]) then [x] + s
    else
      assert s == [s[0]] + s[1..];
      [s[0]] + Insert(s[1..], x, key)
  }

  lemma {:induction false} InsertSorted<T>(s: seq<T>, x: T, key: T -> int)
    requires SortedBy(s, key)
    ensures SortedBy(Insert(s, x, key), key)
  {
    if s != [] && key(x) > key(s[0]) {
      var rest := Insert(s[1..], x, key);
      InsertSorted(s[1..], x, key);
      forall k | 0 <= k < |rest|
        ensures key(s[0]) <= key(rest[k])
      {
        assert rest[k] in multiset(s[1..]) + multiset{x};
        if rest[k] != x {
          var m :| 0 <= m < |s[1..]| && s[1..][m] == rest[k];
          assert s[1..][m] == s[m + 1];
        }
      }
    }
  }

  /** The sort of a copy: insertion of each element into a sorted prefix. */
  method Sort<T>(s: seq<T>, key: T -> int) returns (r: seq<T>)
    ensures SortedBy(r, key)
    ensures multiset(r) == multiset(s)
  {
    r := [];
    for i := 0 to |s|
      invariant SortedBy(r, key)
      invariant multiset(r) == multiset(s[..i])
    {
      InsertSorted(r, s[i], key);
      assert s[..i + 1] == s[..i] + [s[i]];
      r := Insert(r, s[i], key);
    }
    assert s[..|s|] == s;
  }
}
