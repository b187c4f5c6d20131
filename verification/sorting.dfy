/** Sorting by a real-valued key, standing for the std::sort calls with a
    comparator (the kd-tree's dimension and distance comparators). The
    order of equal keys is not specified by the source; this sort keeps
    their input order. */
module Sorting {

  predicate SortedBy<T>(s: seq<T>, key: T -> real) {
    forall i, j | 0 <= i < j < |s| :: key(s[i]) <= key(s[j])
  }

  /** `x` placed before the first element of larger key. */
  function Insert<T>(x: T, s: seq<T>, key: T -> real): seq<T> {
    if s == [] then [x]
    else if key(x) <= key(s[0]) then [x] + s
    else [s[0]] + Insert(x, s[1..], key)
  }

  /** Insertion adds exactly the one element, and the result starts with
      it or with the old first element. */
  lemma {:induction false} InsertContents<T>(x: T, s: seq<T>, key: T -> real)
    ensures multiset(Insert(x, s, key)) == multiset(s) + multiset{x}
    ensures |Insert(x, s, key)| == |s| + 1
    ensures Insert(x, s, key)[0] == x || (s != [] && Insert(x, s, key)[0] == s[0])
  {
    if s != [] && key(x) > key(s[0]) {
      InsertContents(x, s[1..], key);
      assert s == [s[0]] + s[1..];
    }
  }

  /** Inserting into a sorted sequence keeps it sorted. */
  lemma {:induction false} InsertSorted<T>(x: T, s: seq<T>, key: T -> real)
    requires SortedBy(s, key)
    ensures SortedBy(Insert(x, s, key), key)
  {
    if s == [] {
    } else if key(x) <= key(s[0]) {
      ConsSorted(x, s, key);
    } else {
      var tail := s[1..];
      assert SortedBy(tail, key) by {
        forall i, j | 0 <= i < j < |tail| ensures key(tail[i]) <= key(tail[j]) {
          assert tail[i] == s[i + 1] && tail[j] == s[j + 1];
        }
      }
      InsertSorted(x, tail, key);
      InsertContents(x, tail, key);
      var rest := Insert(x, tail, key);
      assert key(s[0]) <= key(rest[0]) by {
        if rest[0] != x {
          assert rest[0] == s[1];
        }
      }
      ConsSorted(s[0], rest, key);
    }
  }

  /** An element whose key is at most the first key of a sorted sequence
      can go in front of it. */
  lemma ConsSorted<T>(h: T, s: seq<T>, key: T -> real)
    requires SortedBy(s, key) && s != [] && key(h) <= key(s[0])
    ensures SortedBy([h] + s, key)
  {
    var r := [h] + s;
    forall i, j | 0 <= i < j < |r| ensures key(r[i]) <= key(r[j]) {
      if i == 0 {
        assert key(s[0]) <= key(s[j - 1]);
      } else {
        assert r[i] == s[i - 1] && r[j] == s[j - 1];
      }
    }
  }

  /** Insertion sort: a sorted permutation of `s`. */
  function Sort<T>(s: seq<T>, key: T -> real): (r: seq<T>)
    ensures SortedBy(r, key)
    ensures multiset(r) == multiset(s)
    ensures |r| == |s|
  {
    if s == [] then []
    else
      assert s == s[..|s| - 1] + [s[|s| - 1]];
      InsertSorted(s[|s| - 1], Sort(s[..|s| - 1], key), key);
      InsertContents(s[|s| - 1], Sort(s[..|s| - 1], key), key);
      Insert(s[|s| - 1], Sort(s[..|s| - 1], key), key)
  }

  /** The elements of a sorted sequence before a position have keys at
      most its key, those after at least. */
  lemma SortedSplit<T>(s: seq<T>, key: T -> real, m: nat)
    requires SortedBy(s, key) && m < |s|
    ensures forall y | y in s[..m] :: key(y) <= key(s[m])
    ensures forall y | y in s[m + 1..] :: key(y) >= key(s[m])
  {
    forall y | y in s[..m] ensures key(y) <= key(s[m]) {
      var k :| 0 <= k < m && s[k] == y;
    }
    forall y | y in s[m + 1..] ensures key(y) >= key(s[m]) {
      var k :| m + 1 <= k < |s| && s[k] == y;
    }
  }

  /** What a sorted sequence loses when cut to its first n elements has
      keys at least those of everything kept. */
  lemma SortedPrefixBelow<T>(s: seq<T>, key: T -> real, n: nat)
    requires SortedBy(s, key) && n <= |s|
    ensures forall y, k | y in multiset(s) - multiset(s[..n]) && 0 <= k < n :: key(s[k]) <= key(y)
  {
    assert s == s[..n] + s[n..];
    assert multiset(s) - multiset(s[..n]) == multiset(s[n..]);
    forall y, k | y in multiset(s) - multiset(s[..n]) && 0 <= k < n
      ensures key(s[k]) <= key(y)
    {
      assert y in s[n..];
      var j :| 0 <= j < |s[n..]| && s[n..][j] == y;
      assert s[n + j] == y;
    }
  }
}
