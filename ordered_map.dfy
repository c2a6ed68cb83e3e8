/** The parts of `std::map<std::string, int>` the statistics rely on: keys
    ordered by `std::string`'s `operator<`, `m[k]++` inserting a 0 for a new
    key, and iteration over the entries in ascending key order. */
module OrderedMap {

  type Entry = (string, int)

  /** std::string's operator<: lexicographic by character, a proper prefix first. */
  predicate StrLess(a: string, b: string)
    decreases |a|
  {
    if a == [] then b != []
    else if b == [] then false
    else if a[0] != b[0] then a[0] < b[0]
    else StrLess(a[1..], b[1..])
  }

  lemma {:induction false} StrLessIrreflexive(a: string)
    ensures !StrLess(a, a)
    decreases |a|
  {
    if a != [] {
      StrLessIrreflexive(a[1..]);
    }
  }

  lemma {:induction false} StrLessTransitive(a: string, b: string, c: string)
    requires StrLess(a, b) && StrLess(b, c)
    ensures StrLess(a, c)
    decreases |a|
  {
    if a != [] && a[0] == b[0] && b[0] == c[0] {
      StrLessTransitive(a[1..], b[1..], c[1..]);
    }
  }

  lemma {:induction false} StrLessTotal(a: string, b: string)
    ensures a == b || StrLess(a, b) || StrLess(b, a)
    decreases |a|
  {
    if a != [] && b != [] && a[0] == b[0] {
      StrLessTotal(a[1..], b[1..]);
      if a[1..] == b[1..] {
        assert a == [a[0]] + a[1..] && b == [b[0]] + b[1..];
      }
    }
  }

  lemma StrLessAsymmetric(a: string, b: string)
    requires StrLess(a, b)
    ensures !StrLess(b, a)
  {
    if StrLess(b, a) {
      StrLessTransitive(a, b, a);
      StrLessIrreflexive(a);
    }
  }

  /** Keys strictly ascending, as a std::map iterates them. */
  ghost predicate KeyOrdered(es: seq<Entry>)
  {
    forall i, j :: 0 <= i < j < |es| ==> StrLess(es[i].0, es[j].0)
  }

  /** `es` lists the entries of `m`, each once, in ascending key order. */
  ghost predicate Enumerates(es: seq<Entry>, m: map<string, int>)
  {
    && KeyOrdered(es)
    && (forall i :: 0 <= i < |es| ==> es[i].0 in m && es[i].1 == m[es[i].0])
    && (forall k :: k in m ==> exists i :: 0 <= i < |es| && es[i].0 == k)
  }

  /** The least key of a non-empty key set. */
  method MinKey(ks: set<string>) returns (k: string)
    requires ks != {}
    ensures k in ks && forall j :: j in ks && j != k ==> StrLess(k, j)
  {
    k :| k in ks;
    var rest := ks - {k};
    while rest != {}
      invariant k in ks && rest <= ks && k !in rest
      invariant forall j :: j in ks - rest && j != k ==> StrLess(k, j)
      decreases rest
    {
      var j :| j in rest;
      StrLessTotal(j, k);
      if StrLess(j, k) {
        forall i | i in ks - rest && i != j
          ensures StrLess(j, i)
        {
          if i != k {
            StrLessTransitive(j, k, i);
          }
        }
        k := j;
      }
      rest := rest - {j};
    }
  }

  /** Iteration over a map: its entries in ascending key order. */
  method Entries(m: map<string, int>) returns (es: seq<Entry>)
    ensures Enumerates(es, m)
  {
    es := [];
    var rest := m.Keys;
    while rest != {}
      invariant EntriesSoFar(es, rest, m)
      decreases rest
    {
      var k := MinKey(rest);
      EntriesStep(es, rest, m, k);
      es, rest := es + [(k, m[k])], rest - {k};
    }
  }

  /** The loop state of the iteration: `es` lists, in key order, the entries
      whose keys are no longer in `rest`, and all of them come before `rest`. */
  ghost predicate EntriesSoFar(es: seq<Entry>, rest: set<string>, m: map<string, int>)
  {
    && rest <= m.Keys
    && (forall i :: 0 <= i < |es| ==> es[i].0 in m && es[i].0 !in rest && es[i].1 == m[es[i].0])
    && (forall k :: k in m ==> k in rest || exists i :: 0 <= i < |es| && es[i].0 == k)
    && (forall i, k :: 0 <= i < |es| && k in rest ==> StrLess(es[i].0, k))
    && KeyOrdered(es)
  }

  /** Taking the least remaining key next keeps the loop state. */
  lemma EntriesStep(es: seq<Entry>, rest: set<string>, m: map<string, int>, k: string)
    requires EntriesSoFar(es, rest, m)
    requires k in rest && forall j :: j in rest && j != k ==> StrLess(k, j)
    ensures EntriesSoFar(es + [(k, m[k])], rest - {k}, m)
  {
    var es' := es + [(k, m[k])];
    forall j | j in m
      ensures j in rest - {k} || exists i :: 0 <= i < |es'| && es'[i].0 == j
    {
      if j == k {
        assert es'[|es|].0 == j;
      } else if j !in rest {
        var i :| 0 <= i < |es| && es[i].0 == j;
        assert es'[i].0 == j;
      }
    }
    OrderedSnoc(es, (k, m[k]));
  }

  /** An entry whose key follows every key of an ordered list can be appended. */
  lemma OrderedSnoc(es: seq<Entry>, e: Entry)
    requires KeyOrdered(es) && forall i :: 0 <= i < |es| ==> StrLess(es[i].0, e.0)
    ensures KeyOrdered(es + [e])
  {
  }

  /** How often `k` occurs in `s`. */
  function Count(s: seq<string>, k: string): (c: nat)
    ensures c <= |s|
    ensures c > 0 <==> k in s
  {
    if s == [] then 0
    else
      assert s == s[..|s| - 1] + [s[|s| - 1]];
      Count(s[..|s| - 1], k) + (if s[|s| - 1] == k then 1 else 0)
  }

  /** `s` without its occurrences of `k`. */
  function Remove(s: seq<string>, k: string): (r: seq<string>)
    ensures |r| + Count(s, k) == |s|
    ensures forall j :: Count(r, j) == if j == k then 0 else Count(s, j)
    ensures forall x :: x in r <==> x in s && x != k
  {
    if s == [] then []
    else
      var r0, x := Remove(s[..|s| - 1], k), s[|s| - 1];
      assert s == s[..|s| - 1] + [x];
      if x == k then r0
      else
        assert (r0 + [x])[..|r0|] == r0;
        r0 + [x]
  }

  /** `m[k]++` on a std::map: a missing key is inserted with 0 first. */
  function Inc(m: map<string, int>, k: string): (m': map<string, int>)
    ensures m'.Keys == m.Keys + {k}
    ensures k in m ==> m'[k] == m[k] + 1
    ensures k !in m ==> m'[k] == 1
    ensures forall j :: j in m && j != k ==> m'[j] == m[j]
  {
    m[k := (if k in m then m[k] else 0) + 1]
  }

  /** The map that `m[k]++` over the keys of `s`, in order, builds from an empty map. */
  function Tally(s: seq<string>): (m: map<string, int>)
    ensures forall k :: k in m <==> k in s
    ensures forall k :: k in m ==> m[k] == Count(s, k)
  {
    if s == [] then map[]
    else
      assert s == s[..|s| - 1] + [s[|s| - 1]];
      Inc(Tally(s[..|s| - 1]), s[|s| - 1])
  }

  lemma TallyAppend(s: seq<string>, x: string)
    ensures Tally(s + [x]) == Inc(Tally(s), x)
  {
    assert (s + [x])[..|s|] == s;
  }

  /** The sum of the counts of a list of entries. */
  function SumSeq(es: seq<Entry>): int
  {
    if es == [] then 0 else SumSeq(es[..|es| - 1]) + es[|es| - 1].1
  }

  lemma HeadIsElement(s: seq<string>)
    ensures s == [] || s[0] in s
  {
  }

  /** Summing the entries of the tally of `s`, whatever their order, gives |s|. */
  lemma {:induction false} SumOfCounts(es: seq<Entry>, s: seq<string>)
    requires forall i, j :: 0 <= i < j < |es| ==> es[i].0 != es[j].0
    requires forall i :: 0 <= i < |es| ==> es[i].1 == Count(s, es[i].0)
    requires forall x :: x in s ==> exists i :: 0 <= i < |es| && es[i].0 == x
    ensures SumSeq(es) == |s|
  {
    if es == [] {
      HeadIsElement(s);
    } else {
      var n := |es| - 1;
      var k := es[n].0;
      var s' := Remove(s, k);
      forall x | x in s'
        ensures exists i :: 0 <= i < n && es[..n][i].0 == x
      {
        var i :| 0 <= i < |es| && es[i].0 == x;
        assert i != n;
        assert es[..n][i] == es[i];
      }
      SumOfCounts(es[..n], s');
    }
  }

  /** A list without repetitions holds each of its elements once. */
  lemma {:induction false} DistinctMultiset(es: seq<Entry>)
    requires forall i, j :: 0 <= i < j < |es| ==> es[i] != es[j]
    ensures multiset(es) == multiset(set x | x in es)
  {
    if es != [] {
      var t, x := es[..|es| - 1], es[|es| - 1];
      assert es == t + [x];
      DistinctMultiset(t);
      SetOfSnoc(t, x);
      var a := set y | y in t;
      MultisetOfFreshElement(a, x);
    }
  }

  /** The elements of a list with one more at the end. */
  lemma SetOfSnoc(t: seq<Entry>, x: Entry)
    ensures (set y | y in t + [x]) == (set y | y in t) + {x}
  {
  }

  /** Adding an element not yet in a set adds one copy of it. */
  lemma MultisetOfFreshElement(a: set<Entry>, x: Entry)
    requires x !in a
    ensures multiset(a + {x}) == multiset(a) + multiset{x}
  {
  }

  /** An enumeration of a map is a permutation of its entries. */
  lemma EnumerationIsPermutation(es: seq<Entry>, m: map<string, int>)
    requires Enumerates(es, m)
    ensures multiset(es) == multiset(m.Items)
  {
    forall i, j | 0 <= i < j < |es|
      ensures es[i] != es[j]
    {
      StrLessIrreflexive(es[i].0);
    }
    DistinctMultiset(es);
    assert (set x | x in es) == m.Items by {
      forall e | e in m.Items
        ensures e in es
      {
        var i :| 0 <= i < |es| && es[i].0 == e.0;
        assert es[i] == e;
      }
    }
  }

  /** The sum over an enumeration of the tally of `s` is |s|. */
  lemma SumOfTally(es: seq<Entry>, s: seq<string>)
    requires Enumerates(es, Tally(s))
    ensures SumSeq(es) == |s|
  {
    forall i, j | 0 <= i < j < |es|
      ensures es[i].0 != es[j].0
    {
      StrLessIrreflexive(es[i].0);
    }
    SumOfCounts(es, s);
  }
}
