/** The order Python uses for `str` comparison (and therefore for `sorted`):
    code point by code point, with a proper prefix before its extensions. */
module Lex {

  /** `p` is a prefix of `s` (Python's `s.startswith(p)`). */
  predicate IsPrefix(p: seq<char>, s: seq<char>)
  {
    |p| <= |s| && s[..|p|] == p
  }

  /** Python's `a < b` on strings. */
  predicate Less(a: seq<char>, b: seq<char>)
    decreases |a|
  {
    if |b| == 0 then false
    else if |a| == 0 then true
    else if a[0] != b[0] then a[0] < b[0]
    else Less(a[1..], b[1..])
  }

  /** Python's `a <= b` on strings. */
  predicate LessEq(a: seq<char>, b: seq<char>)
  {
    a == b || Less(a, b)
  }

  lemma {:induction false} LessIrreflexive(a: seq<char>)
    ensures !Less(a, a)
  {
    if |a| > 0 {
      LessIrreflexive(a[1..]);
    }
  }

  lemma {:induction false} LessTransitive(a: seq<char>, b: seq<char>, c: seq<char>)
    requires Less(a, b) && Less(b, c)
    ensures Less(a, c)
    decreases |a|
  {
    if |a| > 0 && a[0] == b[0] && b[0] == c[0] {
      LessTransitive(a[1..], b[1..], c[1..]);
    }
  }

  lemma {:induction false} LessAsymmetric(a: seq<char>, b: seq<char>)
    requires Less(a, b)
    ensures !Less(b, a)
    decreases |a|
  {
    if |a| > 0 && a[0] == b[0] {
      LessAsymmetric(a[1..], b[1..]);
    }
  }

  /** Any two different strings are ordered one way or the other. */
  lemma {:induction false} LessTotal(a: seq<char>, b: seq<char>)
    requires a != b
    ensures Less(a, b) || Less(b, a)
    decreases |a|
  {
    if |a| > 0 && |b| > 0 && a[0] == b[0] {
      assert a == [a[0]] + a[1..] && b == [b[0]] + b[1..];
      LessTotal(a[1..], b[1..]);
    }
  }

  /** A string that starts with `w` is not below `w`. */
  lemma {:induction false} PrefixNotLess(w: seq<char>, x: seq<char>)
    requires IsPrefix(w, x)
    ensures !Less(x, w)
    decreases |w|
  {
    if |w| > 0 {
      assert x[0] == w[0];
      assert IsPrefix(w[1..], x[1..]) by {
        assert x[1..][..|w| - 1] == x[..|w|][1..];
      }
      PrefixNotLess(w[1..], x[1..]);
    }
  }

  /** Everything below a string that starts with `w` is itself below `w`
      or starts with `w`: the strings starting with `w` form a block. */
  lemma {:induction false} LessBeforePrefixBlock(y: seq<char>, x: seq<char>, w: seq<char>)
    requires Less(y, x) && IsPrefix(w, x)
    ensures Less(y, w) || IsPrefix(w, y)
    decreases |w|
  {
    if |w| > 0 && |y| > 0 && y[0] == w[0] {
      assert x[0] == w[0];
      assert IsPrefix(w[1..], x[1..]) by {
        assert x[1..][..|w| - 1] == x[..|w|][1..];
      }
      LessBeforePrefixBlock(y[1..], x[1..], w[1..]);
      if IsPrefix(w[1..], y[1..]) {
        assert y[..|w|] == [y[0]] + y[1..][..|w| - 1];
        assert w == [w[0]] + w[1..];
      }
    }
  }

  /** When `a < b` is decided at a position inside both strings, appending
      anything to either side keeps the order. */
  lemma {:induction false} LessExtend(a: seq<char>, b: seq<char>, u: seq<char>, v: seq<char>)
    requires Less(a, b) && !IsPrefix(a, b)
    ensures Less(a + u, b + v)
    decreases |a|
  {
    assert |a| > 0 && |b| > 0;
    assert (a + u)[0] == a[0] && (b + v)[0] == b[0];
    if a[0] == b[0] {
      assert (a + u)[1..] == a[1..] + u;
      assert (b + v)[1..] == b[1..] + v;
      PrefixTail(a, b);
      LessExtend(a[1..], b[1..], u, v);
    }
  }

  /** Two strings with the same first letter: one is a prefix of the other
      exactly when their tails are. */
  lemma PrefixTail(a: seq<char>, b: seq<char>)
    requires |a| > 0 && |b| > 0 && a[0] == b[0]
    ensures IsPrefix(a, b) <==> IsPrefix(a[1..], b[1..])
  {
    if IsPrefix(a[1..], b[1..]) {
      assert b[..|a|] == [b[0]] + b[1..][..|a| - 1];
      assert a == [a[0]] + a[1..];
    }
    if IsPrefix(a, b) {
      assert b[1..][..|a| - 1] == b[..|a|][1..];
    }
  }

  /** Comparing a non-empty string with `[c] + w` looks at the first
      letter, then at the rest. */
  lemma ConsLess(x: seq<char>, c: char, w: seq<char>)
    requires |x| > 0
    ensures Less(x, [c] + w) <==> x[0] < c || (x[0] == c && Less(x[1..], w))
  {
    assert ([c] + w)[0] == c && ([c] + w)[1..] == w;
  }

  lemma ConsPrefix(x: seq<char>, c: char, w: seq<char>)
    requires |x| > 0
    ensures IsPrefix([c] + w, x) <==> x[0] == c && IsPrefix(w, x[1..])
  {
    if x[0] == c && IsPrefix(w, x[1..]) {
      assert x[..|w| + 1] == [x[0]] + x[1..][..|w|];
    }
    if IsPrefix([c] + w, x) {
      assert x[1..][..|w|] == x[..|w| + 1][1..];
    }
  }
}
