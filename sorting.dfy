/** Python's `sorted`, on the two kinds of list the core sorts: strings
    (rotations and suffixes, compared as Python compares `str`) and the
    integer offsets of `sorted(set(results))`. `sorted` is modelled by an
    insertion sort; `SortedUnique` shows that any sort gives the same list,
    so the choice of algorithm does not matter. */
module Sorting {
  import opened Lex
  import opened Counting

  predicate Sorted(s: seq<seq<char>>)
  {
    forall i, j :: 0 <= i < j < |s| ==> LessEq(s[i], s[j])
  }

  predicate StrictlySorted(s: seq<seq<char>>)
  {
    forall i, j :: 0 <= i < j < |s| ==> Less(s[i], s[j])
  }

  lemma LessEqTransitive(a: seq<char>, b: seq<char>, c: seq<char>)
    requires LessEq(a, b) && LessEq(b, c)
    ensures LessEq(a, c)
  {
    if a != b && b != c {
      LessTransitive(a, b, c);
    }
  }

  lemma LessEqAntisymmetric(a: seq<char>, b: seq<char>)
    requires LessEq(a, b) && LessEq(b, a)
    ensures a == b
  {
    if a != b {
      LessAsymmetric(a, b);
    }
  }

  /** Putting `x` in front of a sorted list whose head is not below it. */
  lemma PrependSorted(x: seq<char>, s: seq<seq<char>>)
    requires Sorted(s) && |s| > 0 && LessEq(x, s[0])
    ensures Sorted([x] + s)
  {
    var r := [x] + s;
    forall i, j | 0 <= i < j < |r|
      ensures LessEq(r[i], r[j])
    {
      assert r[j] == s[j - 1];
      if i == 0 {
        if j > 1 {
          LessEqTransitive(x, s[0], s[j - 1]);
        }
      } else {
        assert r[i] == s[i - 1];
      }
    }
  }

  /** Putting the head of a sorted list in front of a sorted list of its
      other elements and one element above it. */
  lemma PrependHead(x: seq<char>, s: seq<seq<char>>, rest: seq<seq<char>>)
    requires Sorted(s) && |s| > 0 && !LessEq(x, s[0])
    requires Sorted(rest) && multiset(rest) == multiset(s[1..]) + multiset{x}
    ensures Sorted([s[0]] + rest)
  {
    LessTotal(x, s[0]);
    forall j | 0 <= j < |rest|
      ensures LessEq(s[0], rest[j])
    {
      assert rest[j] in multiset(rest);
      if rest[j] != x {
        assert rest[j] in s[1..];
        var k :| 0 <= k < |s[1..]| && s[1..][k] == rest[j];
        assert s[k + 1] == rest[j];
      }
    }
  }

  /** One step of insertion sort. */
  function Insert(x: seq<char>, s: seq<seq<char>>): (r: seq<seq<char>>)
    ensures multiset(r) == multiset(s) + multiset{x}
  {
    if |s| == 0 then [x]
    else if LessEq(x, s[0]) then [x] + s
    else
      assert s == [s[0]] + s[1..];
      [s[0]] + Insert(x, s[1..])
  }

  /** `sorted(xs)` for a list of strings, by insertion sort: a permutation
      of `xs` (`SortIsSorted` shows it is sorted). */
  function Sort(xs: seq<seq<char>>): (r: seq<seq<char>>)
    ensures multiset(r) == multiset(xs)
  {
    if |xs| == 0 then []
    else
      assert xs == [xs[0]] + xs[1..];
      Insert(xs[0], Sort(xs[1..]))
  }

  /** Every element of `Sort(xs)` is an element of `xs`. */
  lemma SortMembers(xs: seq<seq<char>>)
    ensures |Sort(xs)| == |xs|
    ensures forall i :: 0 <= i < |Sort(xs)| ==> Sort(xs)[i] in xs
  {
    var r := Sort(xs);
    assert |r| == |multiset(r)| == |xs|;
    forall i | 0 <= i < |r|
      ensures r[i] in xs
    {
      assert r[i] in multiset(r);
    }
  }

  lemma {:induction false} InsertSorted(x: seq<char>, s: seq<seq<char>>)
    requires Sorted(s)
    ensures Sorted(Insert(x, s))
    decreases |s|
  {
    if |s| > 0 {
      if LessEq(x, s[0]) {
        PrependSorted(x, s);
      } else {
        assert s == [s[0]] + s[1..];
        InsertSorted(x, s[1..]);
        PrependHead(x, s, Insert(x, s[1..]));
      }
    }
  }

  /** `sorted` returns a sorted list. */
  lemma {:induction false} SortIsSorted(xs: seq<seq<char>>)
    ensures Sorted(Sort(xs))
    decreases |xs|
  {
    if |xs| > 0 {
      SortIsSorted(xs[1..]);
      InsertSorted(xs[0], Sort(xs[1..]));
    }
  }

  /** Two sorted permutations of each other start with the same element. */
  lemma SortedSameHead(a: seq<seq<char>>, b: seq<seq<char>>)
    requires Sorted(a) && Sorted(b) && multiset(a) == multiset(b) && |a| > 0
    ensures |b| > 0 && a[0] == b[0]
  {
    assert |b| == |multiset(b)| == |a|;
    assert a[0] in multiset(b) && b[0] in multiset(a);
    var i :| 0 <= i < |b| && b[i] == a[0];
    var j :| 0 <= j < |a| && a[j] == b[0];
    assert LessEq(b[0], a[0]) by {
      if i > 0 { assert LessEq(b[0], b[i]); }
    }
    assert LessEq(a[0], b[0]) by {
      if j > 0 { assert LessEq(a[0], a[j]); }
    }
    LessEqAntisymmetric(a[0], b[0]);
  }

  /** A sorted permutation is unique: `sorted` is determined by its
      postcondition, whatever algorithm computes it. */
  lemma {:induction false} SortedUnique(a: seq<seq<char>>, b: seq<seq<char>>)
    requires Sorted(a) && Sorted(b) && multiset(a) == multiset(b)
    ensures a == b
    decreases |a|
  {
    if |a| == 0 {
      assert |b| == |multiset(b)| == 0;
    } else {
      SortedSameHead(a, b);
      MultisetTail(a);
      MultisetTail(b);
      SortedUnique(a[1..], b[1..]);
      assert a == [a[0]] + a[1..] && b == [b[0]] + b[1..];
    }
  }

  /** A list each of whose elements is below the next is strictly
      increasing. */
  lemma {:induction false} ChainStrictlySorted(s: seq<seq<char>>)
    requires forall i :: 0 < i < |s| ==> Less(s[i - 1], s[i])
    ensures StrictlySorted(s)
    decreases |s|
  {
    if |s| > 1 {
      var r := s[..|s| - 1];
      assert forall i :: 0 < i < |r| ==> Less(r[i - 1], r[i]) by {
        forall i | 0 < i < |r|
          ensures Less(r[i - 1], r[i])
        {
          assert r[i - 1] == s[i - 1] && r[i] == s[i];
        }
      }
      ChainStrictlySorted(r);
      forall i, j | 0 <= i < j < |s|
        ensures Less(s[i], s[j])
      {
        if j == |s| - 1 && i < j - 1 {
          assert r[i] == s[i] && r[j - 1] == s[j - 1];
          LessTransitive(s[i], s[j - 1], s[j]);
        } else if j < |s| - 1 {
          assert r[i] == s[i] && r[j] == s[j];
        }
      }
    }
  }

  /** A strictly increasing list is determined by its elements. */
  lemma {:induction false} StrictlySortedUnique(a: seq<seq<char>>, b: seq<seq<char>>)
    requires StrictlySorted(a) && StrictlySorted(b)
    requires forall x :: x in a <==> x in b
    ensures a == b
    decreases |a|
  {
    if |a| > 0 {
      assert a[0] in a;
    }
    if |b| > 0 {
      assert b[0] in b;
    }
    if |a| > 0 && |b| > 0 {
      assert a[0] == b[0] by {
        var i :| 0 <= i < |b| && b[i] == a[0];
        var j :| 0 <= j < |a| && a[j] == b[0];
        if i > 0 && j > 0 {
          LessAsymmetric(b[0], a[0]);
        }
      }
      forall x
        ensures x in a[1..] <==> x in b[1..]
      {
        assert a == [a[0]] + a[1..] && b == [b[0]] + b[1..];
        if x in a[1..] {
          var k :| 0 <= k < |a[1..]| && a[1..][k] == x;
          assert a[k + 1] == x && Less(a[0], x);
          LessIrreflexive(x);
          assert x in b && x != b[0];
        }
        if x in b[1..] {
          var k :| 0 <= k < |b[1..]| && b[1..][k] == x;
          assert b[k + 1] == x && Less(b[0], x);
          LessIrreflexive(x);
          assert x in a && x != a[0];
        }
      }
      StrictlySortedUnique(a[1..], b[1..]);
    }
  }

  /** `sorted(xs)` of a list without repeats is the strictly increasing
      list of its elements. */
  lemma SortIsStrict(xs: seq<seq<char>>, sorted: seq<seq<char>>)
    requires StrictlySorted(sorted) && Distinct(xs)
    requires forall x :: x in sorted <==> x in xs
    ensures Sort(xs) == sorted
  {
    var r := Sort(xs);
    SortIsSorted(xs);
    DistinctPermutation(r, xs);
    SortedDistinctStrict(r);
    forall x
      ensures x in r <==> x in sorted
    {
      assert x in r <==> x in multiset(r);
      assert x in xs <==> x in multiset(xs);
    }
    StrictlySortedUnique(r, sorted);
  }

  /** A sorted list without repeated elements is strictly increasing. */
  lemma SortedDistinctStrict(s: seq<seq<char>>)
    requires Sorted(s) && Distinct(s)
    ensures StrictlySorted(s)
  {
  }

  // ---- integer offsets: sorted(set(xs))

  predicate Increasing(s: seq<int>)
  {
    forall i, j :: 0 <= i < j < |s| ==> s[i] < s[j]
  }

  function InsertUnique(x: int, s: seq<int>): (r: seq<int>)
    requires Increasing(s)
    ensures Increasing(r)
    ensures forall v :: v in r <==> v == x || v in s
  {
    if |s| == 0 then [x]
    else if x < s[0] then [x] + s
    else if x == s[0] then s
    else
      var rest := InsertUnique(x, s[1..]);
      assert forall v :: v in s <==> v == s[0] || v in s[1..] by {
        assert s == [s[0]] + s[1..];
      }
      forall j | 0 <= j < |rest|
        ensures s[0] < rest[j]
      {
        assert rest[j] in rest;
        if rest[j] != x {
          var k :| 0 <= k < |s[1..]| && s[1..][k] == rest[j];
          assert s[k + 1] == rest[j];
        }
      }
      [s[0]] + rest
  }

  /** `sorted(set(xs))`: the distinct elements of `xs` in increasing order. */
  function SortedSet(xs: seq<int>): (r: seq<int>)
    ensures Increasing(r)
    ensures forall v :: v in r <==> v in xs
  {
    if |xs| == 0 then []
    else
      assert forall v :: v in xs <==> v == xs[0] || v in xs[1..] by {
        assert xs == [xs[0]] + xs[1..];
      }
      InsertUnique(xs[0], SortedSet(xs[1..]))
  }

  /** An increasing list is determined by its elements. */
  lemma {:induction false} IncreasingUnique(a: seq<int>, b: seq<int>)
    requires Increasing(a) && Increasing(b)
    requires forall v :: v in a <==> v in b
    ensures a == b
    decreases |a|
  {
    if |a| > 0 {
      assert a[0] in a;
    }
    if |b| > 0 {
      assert b[0] in b;
    }
    if |a| > 0 && |b| > 0 {
      assert a[0] in b && b[0] in a;
      assert a[0] == b[0] by {
        var i :| 0 <= i < |b| && b[i] == a[0];
        var j :| 0 <= j < |a| && a[j] == b[0];
        assert b[0] <= b[i] && a[0] <= a[j];
      }
      forall v
        ensures v in a[1..] <==> v in b[1..]
      {
        assert a == [a[0]] + a[1..] && b == [b[0]] + b[1..];
        assert v in a <==> v == a[0] || v in a[1..];
        assert v in b <==> v == b[0] || v in b[1..];
        if v in a[1..] {
          var k :| 0 <= k < |a[1..]| && a[1..][k] == v;
          assert a[k + 1] == v && a[0] < v;
        }
        if v in b[1..] {
          var k :| 0 <= k < |b[1..]| && b[1..][k] == v;
          assert b[k + 1] == v && b[0] < v;
        }
      }
      IncreasingUnique(a[1..], b[1..]);
    }
  }
}
