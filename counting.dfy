/** Counting the elements of a sequence that satisfy a predicate (what
    `len([x for x in s if p(x)])` computes), mapping a function over a
    sequence, and facts about both under permutation. */
module Counting {

  /** `len([x for x in s if p(x)])` */
  function CountIf<T>(s: seq<T>, p: T -> bool): (n: nat)
    ensures n <= |s|
  {
    if |s| == 0 then 0 else (if p(s[0]) then 1 else 0) + CountIf(s[1..], p)
  }

  /** `[f(x) for x in s]` */
  function MapSeq<T, U>(f: T -> U, s: seq<T>): (r: seq<U>)
    ensures |r| == |s|
  {
    seq(|s|, i requires 0 <= i < |s| => f(s[i]))
  }

  ghost predicate Distinct<T>(s: seq<T>)
  {
    forall i, j :: 0 <= i < j < |s| ==> s[i] != s[j]
  }

  lemma {:induction false} CountIfAppend<T>(a: seq<T>, b: seq<T>, p: T -> bool)
    ensures CountIf(a + b, p) == CountIf(a, p) + CountIf(b, p)
  {
    if |a| == 0 {
      assert a + b == b;
    } else {
      assert (a + b)[1..] == a[1..] + b;
      CountIfAppend(a[1..], b, p);
    }
  }

  /** Removing the element at `k` removes one copy of it from the multiset. */
  lemma RemoveAt<T>(b: seq<T>, k: nat)
    requires k < |b|
    ensures b == b[..k] + [b[k]] + b[k + 1..]
    ensures multiset(b[..k] + b[k + 1..]) == multiset(b) - multiset{b[k]}
  {
    assert b == b[..k] + [b[k]] + b[k + 1..];
  }

  /** Dropping the first element of a sequence drops one copy of it. */
  lemma MultisetTail<T>(a: seq<T>)
    requires |a| > 0
    ensures multiset(a[1..]) == multiset(a) - multiset{a[0]}
  {
    assert a == [a[0]] + a[1..];
  }

  /** Counting around the element at `k`. */
  lemma CountIfRemove<T>(b: seq<T>, k: nat, p: T -> bool)
    requires k < |b|
    ensures CountIf(b, p) == (if p(b[k]) then 1 else 0) + CountIf(b[..k] + b[k + 1..], p)
  {
    var left, mid, right := b[..k], b[k..], b[k + 1..];
    assert b == left + mid;
    CountIfAppend(left, mid, p);
    assert mid[0] == b[k] && mid[1..] == right;
    assert CountIf(mid, p) == (if p(b[k]) then 1 else 0) + CountIf(right, p);
    CountIfAppend(left, right, p);
  }

  /** The count depends only on the multiset of elements. */
  lemma {:induction false} CountIfPermutation<T>(a: seq<T>, b: seq<T>, p: T -> bool)
    requires multiset(a) == multiset(b)
    ensures CountIf(a, p) == CountIf(b, p)
    decreases |a|
  {
    if |a| == 0 {
      assert |b| == |multiset(b)| == 0;
    } else {
      assert a[0] in multiset(b);
      var k :| 0 <= k < |b| && b[k] == a[0];
      RemoveAt(b, k);
      var rest := b[..k] + b[k + 1..];
      MultisetTail(a);
      assert multiset(a[1..]) == multiset(rest);
      CountIfPermutation(a[1..], rest, p);
      CountIfRemove(b, k, p);
    }
  }

  lemma MapSeqAppend<T, U>(f: T -> U, a: seq<T>, b: seq<T>)
    ensures MapSeq(f, a + b) == MapSeq(f, a) + MapSeq(f, b)
  {
  }

  ghost function MapsTo<T, U>(f: T -> U, y: U): T -> bool
  {
    x => f(x) == y
  }

  /** How often `y` occurs in the image is how many elements map to it. */
  lemma {:induction false} MapMultiplicity<T, U>(f: T -> U, a: seq<T>, y: U)
    ensures multiset(MapSeq(f, a))[y] == CountIf(a, MapsTo(f, y))
    decreases |a|
  {
    if |a| > 0 {
      assert MapSeq(f, a) == [f(a[0])] + MapSeq(f, a[1..]);
      MapMultiplicity(f, a[1..], y);
    }
  }

  /** Mapping a function over two permutations of each other gives two
      permutations of each other. */
  lemma MapPermutation<T, U>(f: T -> U, a: seq<T>, b: seq<T>)
    requires multiset(a) == multiset(b)
    ensures multiset(MapSeq(f, a)) == multiset(MapSeq(f, b))
  {
    var ma, mb := multiset(MapSeq(f, a)), multiset(MapSeq(f, b));
    forall y
      ensures ma[y] == mb[y]
    {
      MapMultiplicity(f, a, y);
      MapMultiplicity(f, b, y);
      CountIfPermutation(a, b, MapsTo(f, y));
    }
    MultisetExtensional(ma, mb);
  }

  lemma MultisetExtensional<U>(ma: multiset<U>, mb: multiset<U>)
    requires forall y :: ma[y] == mb[y]
    ensures ma == mb
  {
  }

  /** Two sequences whose elements satisfy their predicates position by
      position have equal counts. */
  lemma {:induction false} CountIfPointwise<T, U>(a: seq<T>, p: T -> bool, b: seq<U>, q: U -> bool)
    requires |a| == |b|
    requires forall i :: 0 <= i < |a| ==> p(a[i]) == q(b[i])
    ensures CountIf(a, p) == CountIf(b, q)
    decreases |a|
  {
    if |a| > 0 {
      CountIfPointwise(a[1..], p, b[1..], q);
    }
  }

  /** Counting a predicate that is the disjoint union of two others. */
  lemma {:induction false} CountIfDisjointUnion<T>(s: seq<T>, p: T -> bool, p1: T -> bool, p2: T -> bool)
    requires forall i :: 0 <= i < |s| ==> (p(s[i]) <==> p1(s[i]) || p2(s[i]))
    requires forall i :: 0 <= i < |s| ==> !(p1(s[i]) && p2(s[i]))
    ensures CountIf(s, p) == CountIf(s, p1) + CountIf(s, p2)
    decreases |s|
  {
    if |s| > 0 {
      CountIfDisjointUnion(s[1..], p, p1, p2);
    }
  }

  /** The count is positive exactly when some element satisfies `p`. */
  lemma {:induction false} CountIfPositive<T>(s: seq<T>, p: T -> bool)
    ensures CountIf(s, p) > 0 <==> exists i :: 0 <= i < |s| && p(s[i])
    decreases |s|
  {
    if |s| > 0 {
      CountIfPositive(s[1..], p);
      if exists i :: 0 <= i < |s| && p(s[i]) {
        var i :| 0 <= i < |s| && p(s[i]);
        if i > 0 {
          assert p(s[1..][i - 1]);
        }
      }
      if exists i :: 0 <= i < |s[1..]| && p(s[1..][i]) {
        var i :| 0 <= i < |s[1..]| && p(s[1..][i]);
        assert p(s[i + 1]);
      }
    }
  }

  /** Every element satisfies `p`: all are counted. */
  lemma {:induction false} CountIfAll<T>(s: seq<T>, p: T -> bool)
    requires forall i :: 0 <= i < |s| ==> p(s[i])
    ensures CountIf(s, p) == |s|
    decreases |s|
  {
    if |s| > 0 {
      assert forall i :: 0 <= i < |s[1..]| ==> p(s[1..][i]) by {
        forall i | 0 <= i < |s[1..]|
          ensures p(s[1..][i])
        {
          assert s[1..][i] == s[i + 1];
        }
      }
      CountIfAll(s[1..], p);
    }
  }

  /** A predicate that, along `s`, holds of an element only when it holds of
      every earlier one, holds exactly on the first `CountIf(s, p)`
      positions. */
  lemma {:induction false} CountIfDownClosed<T>(s: seq<T>, p: T -> bool)
    requires forall i, j :: 0 <= i < j < |s| && p(s[j]) ==> p(s[i])
    ensures forall j :: 0 <= j < |s| ==> (p(s[j]) <==> j < CountIf(s, p))
    decreases |s|
  {
    if |s| > 0 {
      var t := s[1..];
      assert forall i, j :: 0 <= i < j < |t| && p(t[j]) ==> p(t[i]) by {
        forall i, j | 0 <= i < j < |t| && p(t[j])
          ensures p(t[i])
        {
          assert t[j] == s[j + 1] && t[i] == s[i + 1];
        }
      }
      CountIfDownClosed(t, p);
      if |t| > 0 {
        assert t[0] == s[1];
      }
      forall j | 1 <= j < |s|
        ensures p(s[j]) <==> j < CountIf(s, p)
      {
        assert s[j] == t[j - 1];
      }
    }
  }

  /** `CountIf` with equality is the multiplicity in the multiset. */
  lemma {:induction false} CountIfEquals<T>(s: seq<T>, x: T, p: T -> bool)
    requires forall y :: p(y) <==> y == x
    ensures CountIf(s, p) == multiset(s)[x]
    decreases |s|
  {
    if |s| > 0 {
      assert s == [s[0]] + s[1..];
      CountIfEquals(s[1..], x, p);
    }
  }

  /** Joining two sequences without repeated elements and with no element
      in common gives a sequence without repeated elements. */
  lemma DistinctAppend<T>(a: seq<T>, b: seq<T>)
    requires Distinct(a) && Distinct(b)
    requires forall i, j :: 0 <= i < |a| && 0 <= j < |b| ==> a[i] != b[j]
    ensures Distinct(a + b)
  {
    var c := a + b;
    forall i, j | 0 <= i < j < |c|
      ensures c[i] != c[j]
    {
      if j < |a| {
        assert c[i] == a[i] && c[j] == a[j];
      } else if i < |a| {
        assert c[i] == a[i] && c[j] == b[j - |a|];
      } else {
        assert c[i] == b[i - |a|] && c[j] == b[j - |a|];
      }
    }
  }

  /** A permutation of a sequence with no repeated element has none either. */
  lemma DistinctPermutation<T>(a: seq<T>, b: seq<T>)
    requires multiset(a) == multiset(b) && Distinct(b)
    ensures Distinct(a)
  {
    forall i, j | 0 <= i < j < |a|
      ensures a[i] != a[j]
    {
      if a[i] == a[j] {
        MultiplicityAtLeastTwo(a, i, j);
        MultiplicityAtMostOne(b, a[i]);
      }
    }
  }

  lemma MultiplicityAtLeastTwo<T>(a: seq<T>, i: nat, j: nat)
    requires i < j < |a| && a[i] == a[j]
    ensures multiset(a)[a[i]] >= 2
  {
    assert a == a[..i] + [a[i]] + a[i + 1..j] + [a[j]] + a[j + 1..];
  }

  lemma {:induction false} MultiplicityAtMostOne<T>(b: seq<T>, x: T)
    requires Distinct(b)
    ensures multiset(b)[x] <= 1
    decreases |b|
  {
    if |b| > 0 {
      assert b == [b[0]] + b[1..];
      assert Distinct(b[1..]) by {
        forall i, j | 0 <= i < j < |b[1..]|
          ensures b[1..][i] != b[1..][j]
        {
          assert b[1..][i] == b[i + 1] && b[1..][j] == b[j + 1];
        }
      }
      MultiplicityAtMostOne(b[1..], x);
      if b[0] == x {
        assert x !in b[1..] by {
          forall k | 0 <= k < |b[1..]|
            ensures b[1..][k] != x
          {
            assert b[1..][k] == b[k + 1];
          }
        }
      }
    }
  }

  /** When `q` holds of no element of `b` past its first `m`, counting it in
      a permutation of `b` is counting it in `b[..m]`. */
  lemma CountIfTop<T>(a: seq<T>, b: seq<T>, q: T -> bool, m: nat)
    requires multiset(a) == multiset(b) && m <= |b|
    requires forall j :: m <= j < |b| ==> !q(b[j])
    ensures CountIf(a, q) == CountIf(b[..m], q)
  {
    CountIfPermutation(a, b, q);
    assert b == b[..m] + b[m..];
    CountIfAppend(b[..m], b[m..], q);
    CountIfPositive(b[m..], q);
    forall i | 0 <= i < |b[m..]|
      ensures !q(b[m..][i])
    {
      assert b[m..][i] == b[m + i];
    }
  }

  /** A slice of a permutation `sa` of `0..n`, picking out exactly the rows
      whose entry satisfies `p`, holds exactly the offsets satisfying `p`. */
  lemma SliceMembers(sa: seq<nat>, n: nat, b: nat, e: nat, p: nat -> bool)
    requires |sa| == n && b <= e <= n
    requires forall i :: 0 <= i < n ==> sa[i] < n
    requires forall k :: 0 <= k < n ==> k in sa
    requires forall j :: 0 <= j < n ==> (b <= j < e <==> p(sa[j]))
    ensures forall k :: k in sa[b..e] <==> 0 <= k < n && p(k)
  {
    forall k
      ensures k in sa[b..e] <==> 0 <= k < n && p(k)
    {
      if k in sa[b..e] {
        var j :| 0 <= j < |sa[b..e]| && sa[b..e][j] == k;
        assert sa[b + j] == k;
      }
      if 0 <= k < n && p(k) {
        assert k in sa;
        var j :| 0 <= j < |sa| && sa[j] == k;
        assert sa[b..e][j - b] == k;
      }
    }
  }

  /** Positions `sa` locating each element of a permutation `ys` of a
      sequence `xs` without repeats cover every position of `xs`. */
  lemma PermutationPositions<T>(xs: seq<T>, ys: seq<T>, sa: seq<nat>)
    requires multiset(xs) == multiset(ys) && Distinct(xs) && |sa| == |ys|
    requires forall i :: 0 <= i < |ys| ==> sa[i] < |xs| && xs[sa[i]] == ys[i]
    ensures forall k :: 0 <= k < |xs| ==> k in sa
  {
    forall k | 0 <= k < |xs|
      ensures k in sa
    {
      assert xs[k] in multiset(ys);
      var i :| 0 <= i < |ys| && ys[i] == xs[k];
      assert xs[sa[i]] == xs[k];
      assert sa[i] == k;
    }
  }
}
