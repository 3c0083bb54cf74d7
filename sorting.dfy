/** Sorting by a string key, with the contract of Go's `sort.Strings` and
    `sort.Slice`: the result is a permutation of the input in which no
    element is preceded by one whose key is greater. Equal keys may come out
    in any order. */
module Sorting {
  import opened StringOrder

  /** No element is preceded by one whose key compares greater. */
  ghost predicate SortedBy<T>(s: seq<T>, key: T -> string)
  {
    forall i, j :: 0 <= i < j < |s| ==> !Less(key(s[j]), key(s[i]))
  }

  /** Strictly increasing, hence free of duplicates. */
  ghost predicate StrictlySorted(s: seq<string>)
  {
    forall i, j :: 0 <= i < j < |s| ==> Less(s[i], s[j])
  }

  ghost predicate Distinct<T>(s: seq<T>)
  {
    forall i, j :: 0 <= i < j < |s| ==> s[i] != s[j]
  }

  /** Insertion sort on a sequence. The library's algorithm is not modelled,
      only its contract. */
  method SortByKey<T>(s: seq<T>, key: T -> string) returns (r: seq<T>)
    ensures SortedBy(r, key)
    ensures multiset(r) == multiset(s)
  {
    r := [];
    var n := 0;
    while n < |s|
      invariant n <= |s|
      invariant SortedBy(r, key)
      invariant multiset(r) == multiset(s[..n])
    {
      var x := s[n];
      var j := 0;
      while j < |r| && !Less(key(x), key(r[j]))
        invariant j <= |r|
        invariant forall k :: 0 <= k < j ==> !Less(key(x), key(r[k]))
      {
        j := j + 1;
      }
      InsertKeepsSorted(r, j, x, key);
      assert r == r[..j] + r[j..];
      r := r[..j] + [x] + r[j..];
      assert s[..n + 1] == s[..n] + [x];
      n := n + 1;
    }
    assert s[..n] == s;
  }

  /** Placing `x` after every key it does not precede and before the first
      key it precedes keeps a sorted sequence sorted. */
  lemma InsertKeepsSorted<T>(r: seq<T>, j: nat, x: T, key: T -> string)
    requires SortedBy(r, key) && j <= |r|
    requires forall k :: 0 <= k < j ==> !Less(key(x), key(r[k]))
    requires j < |r| ==> Less(key(x), key(r[j]))
    ensures SortedBy(r[..j] + [x] + r[j..], key)
  {
    var t := r[..j] + [x] + r[j..];
    forall a, b | 0 <= a < b < |t|
      ensures !Less(key(t[b]), key(t[a]))
    {
      if a == j {
        // t[b] == r[b - 1] with b - 1 >= j
        if Less(key(t[b]), key(x)) {
          if b - 1 > j {
            LessTransitive(key(t[b]), key(x), key(r[j]));
          } else {
            LessAsymmetric(key(x), key(r[j]));
          }
        }
      } else if b == j {
      } else if a > j {
      } else if b < j {
      } else {
        assert a < j < b;
      }
    }
  }

  /** The key of a string sorted by itself. */
  function Identity(s: string): string
  {
    s
  }

  /** A non-decreasing sequence without duplicates is strictly increasing. */
  lemma SortedDistinctIsStrict(s: seq<string>)
    requires SortedBy(s, Identity) && Distinct(s)
    ensures StrictlySorted(s)
  {
    forall i, j | 0 <= i < j < |s|
      ensures Less(s[i], s[j])
    {
      assert !Less(s[j], s[i]);
      LessTotal(s[i], s[j]);
    }
  }

  /** A strictly increasing sequence is determined by its elements: the
      sorted form of a set of strings is unique. */
  lemma {:induction false} StrictlySortedUnique(a: seq<string>, b: seq<string>)
    requires StrictlySorted(a) && StrictlySorted(b)
    requires forall x :: x in a <==> x in b
    ensures a == b
    decreases |a|
  {
    SameElementsBothEmpty(a, b);
    if a != [] {
      assert a[0] in a;
      assert b[0] in b;
      if a[0] != b[0] {
        var i :| 0 <= i < |a| && a[i] == b[0];
        var k :| 0 <= k < |b| && b[k] == a[0];
        assert i > 0 && k > 0;
        assert Less(a[0], b[0]) && Less(b[0], a[0]);
        LessAsymmetric(a[0], b[0]);
      }
      forall x
        ensures x in a[1..] <==> x in b[1..]
      {
        if x in a[1..] {
          var i :| 1 <= i < |a| && a[i] == x;
          LessIrreflexive(a[0]);
          assert x != a[0] && x in b;
          var k :| 0 <= k < |b| && b[k] == x;
          assert k != 0;
          assert b[k] == b[1..][k - 1];
        }
        if x in b[1..] {
          var i :| 1 <= i < |b| && b[i] == x;
          LessIrreflexive(b[0]);
          assert x != b[0] && x in a;
          var k :| 0 <= k < |a| && a[k] == x;
          assert k != 0;
          assert a[k] == a[1..][k - 1];
        }
      }
      StrictlySortedUnique(a[1..], b[1..]);
      assert a == [a[0]] + a[1..] && b == [b[0]] + b[1..];
    }
  }

  lemma SameElementsBothEmpty(a: seq<string>, b: seq<string>)
    requires forall x :: x in a <==> x in b
    ensures a == [] <==> b == []
  {
    if a != [] {
      assert a[0] in b;
    }
    if b != [] {
      assert b[0] in a;
    }
  }

  lemma {:induction false} DistinctCount<T>(s: seq<T>, x: T)
    requires Distinct(s)
    ensures multiset(s)[x] <= 1
  {
    if s != [] {
      assert s == [s[0]] + s[1..];
      DistinctCount(s[1..], x);
      if x == s[0] {
        assert x !in s[1..];
      }
    }
  }

  lemma DuplicateCount<T>(s: seq<T>, i: nat, j: nat)
    requires i < j < |s| && s[i] == s[j]
    ensures multiset(s)[s[i]] >= 2
  {
    assert s == s[..i] + [s[i]] + s[i + 1..j] + [s[j]] + s[j + 1..];
  }

  /** Reordering keeps a duplicate-free sequence duplicate-free. */
  lemma PermutationKeepsDistinct<T>(a: seq<T>, b: seq<T>)
    requires Distinct(a) && multiset(a) == multiset(b)
    ensures Distinct(b)
  {
    forall i, j | 0 <= i < j < |b|
      ensures b[i] != b[j]
    {
      if b[i] == b[j] {
        DuplicateCount(b, i, j);
        DistinctCount(a, b[i]);
      }
    }
  }

  /** Dropping equal first elements keeps two sequences permutations of each other. */
  lemma TailPermutation<T>(a: seq<T>, b: seq<T>)
    requires a != [] && b != [] && a[0] == b[0] && multiset(a) == multiset(b)
    ensures multiset(a[1..]) == multiset(b[1..])
  {
    assert multiset(a) == multiset([a[0]] + a[1..]) == multiset{a[0]} + multiset(a[1..]) by {
      assert a == [a[0]] + a[1..];
    }
    assert multiset(b) == multiset([b[0]] + b[1..]) == multiset{b[0]} + multiset(b[1..]) by {
      assert b == [b[0]] + b[1..];
    }
    assert multiset(a[1..]) == multiset(a) - multiset{a[0]};
  }

  /** A permutation of a non-empty sequence, cut at one occurrence of its
      last element: the remaining pieces are a permutation of the rest. */
  lemma SplitAtLast<T>(s: seq<T>, t: seq<T>) returns (a: seq<T>, b: seq<T>)
    requires s != [] && multiset(s) == multiset(t)
    ensures t == a + [s[|s| - 1]] + b
    ensures multiset(s[..|s| - 1]) == multiset(a + b)
  {
    var x := s[|s| - 1];
    assert s == s[..|s| - 1] + [x];
    assert x in multiset(t);
    var i :| 0 <= i < |t| && t[i] == x;
    a, b := t[..i], t[i + 1..];
    assert t == a + [x] + b;
    assert multiset(s[..|s| - 1]) == multiset(s) - multiset{x};
    assert multiset(a + b) == multiset(t) - multiset{x} by {
      assert multiset(t) == multiset(a) + multiset{x} + multiset(b);
      assert multiset(a + b) == multiset(a) + multiset(b);
    }
  }
}
