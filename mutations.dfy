/** `mutations` in bwt.py: the strings within a given Hamming distance of a
    query, over an alphabet, each produced once thanks to the shared `used`
    set. */
module Mutations {
  import opened Counting

  /** The number of positions where `s` and `w` differ. */
  function Hamming(s: seq<char>, w: seq<char>): (n: nat)
    requires |s| == |w|
    ensures n <= |s|
  {
    if |s| == 0 then 0 else (if s[0] != w[0] then 1 else 0) + Hamming(s[1..], w[1..])
  }

  /** Distance 0 means equal. */
  lemma {:induction false} HammingZero(s: seq<char>, w: seq<char>)
    requires |s| == |w|
    ensures Hamming(s, w) == 0 <==> s == w
    decreases |s|
  {
    if |s| > 0 {
      HammingZero(s[1..], w[1..]);
      if s[0] == w[0] && s[1..] == w[1..] {
        assert s == [s[0]] + s[1..] && w == [w[0]] + w[1..];
      }
    }
  }

  /** Changing one letter of `s` moves it one step closer to `w`, one step
      away, or neither. */
  lemma {:induction false} HammingUpdate(s: seq<char>, w: seq<char>, p: nat, a: char)
    requires |s| == |w| && p < |s|
    ensures Hamming(s[p := a], w) ==
      Hamming(s, w) + (if s[p] == w[p] && a != w[p] then 1 else 0) - (if s[p] != w[p] && a == w[p] then 1 else 0)
    decreases |s|
  {
    if p > 0 {
      assert s[p := a][1..] == s[1..][p - 1 := a];
      HammingUpdate(s[1..], w[1..], p - 1, a);
    } else {
      assert s[p := a][1..] == s[1..];
    }
  }

  /** `s[:pos] + letter + s[pos + 1:]` */
  function Substitute(s: seq<char>, pos: nat, letter: char): (r: seq<char>)
    requires pos < |s|
    ensures r == s[pos := letter]
  {
    s[..pos] + [letter] + s[pos + 1..]
  }

  /** `w` is yielded by `mutations(s, dist, alphabet)` (with a fresh `used`
      set): it has the length of `s`, differs from `s` in at most `dist`
      positions, only ever by letters of the alphabet; and when `dist` is
      positive at least one substitution is made, so `s` itself is only
      reached by putting back one of its own letters that the alphabet
      contains. A negative `dist` reaches nothing. */
  ghost predicate Reach(s: seq<char>, dist: int, alphabet: set<char>, w: seq<char>)
  {
    && |w| == |s|
    && Hamming(s, w) <= dist
    && (forall i :: 0 <= i < |s| && w[i] != s[i] ==> w[i] in alphabet)
    && (dist > 0 ==> w != s || exists i :: 0 <= i < |s| && s[i] in alphabet)
  }

  /** With no distance left, only `s` itself is reached. */
  lemma ReachZero(s: seq<char>, alphabet: set<char>, w: seq<char>)
    ensures Reach(s, 0, alphabet, w) <==> w == s
  {
    if |w| == |s| {
      HammingZero(s, w);
    }
  }

  /** One substitution followed by `dist - 1` more reaches the same strings
      as `dist` substitutions: the recursion of `mutations`. */
  lemma ReachStep(s: seq<char>, dist: int, alphabet: set<char>, w: seq<char>)
    requires dist > 0
    ensures Reach(s, dist, alphabet, w) <==>
      exists a, p :: a in alphabet && 0 <= p < |s| && Reach(Substitute(s, p, a), dist - 1, alphabet, w)
  {
    if Reach(s, dist, alphabet, w) {
      ReachStepDown(s, dist, alphabet, w);
    }
    if exists a, p :: a in alphabet && 0 <= p < |s| && Reach(Substitute(s, p, a), dist - 1, alphabet, w) {
      var a, p :| a in alphabet && 0 <= p < |s| && Reach(Substitute(s, p, a), dist - 1, alphabet, w);
      ReachStepUp(s, dist, alphabet, w, a, p);
    }
  }

  lemma ReachStepUp(s: seq<char>, dist: int, alphabet: set<char>, w: seq<char>, a: char, p: nat)
    requires dist > 0 && a in alphabet && p < |s| && Reach(Substitute(s, p, a), dist - 1, alphabet, w)
    ensures Reach(s, dist, alphabet, w)
  {
    var s' := Substitute(s, p, a);
    HammingUpdate(s, w, p, a);
    forall i | 0 <= i < |s| && w[i] != s[i]
      ensures w[i] in alphabet
    {
      if i != p {
        assert s'[i] == s[i];
      }
    }
    if w == s {
      assert s[p] in alphabet by {
        if a != s[p] {
          assert w[p] != s'[p];
        }
      }
    }
  }

  lemma ReachStepDown(s: seq<char>, dist: int, alphabet: set<char>, w: seq<char>)
    requires dist > 0 && Reach(s, dist, alphabet, w)
    ensures exists a, p :: a in alphabet && 0 <= p < |s| && Reach(Substitute(s, p, a), dist - 1, alphabet, w)
  {
    if w != s {
      var p :| 0 <= p < |s| && w[p] != s[p];
      var a := w[p];
      var s' := Substitute(s, p, a);
      HammingUpdate(s, w, p, a);
      forall i | 0 <= i < |s| && w[i] != s'[i]
        ensures w[i] in alphabet
      {
        assert i != p && s'[i] == s[i];
      }
      assert Reach(s', dist - 1, alphabet, w);
    } else {
      var p :| 0 <= p < |s| && s[p] in alphabet;
      assert Substitute(s, p, s[p]) == s;
      HammingZero(s, w);
      assert Reach(Substitute(s, p, s[p]), dist - 1, alphabet, w);
    }
  }

  /** `out` lists, each once, the strings that have been added to the shared
      set since it was `used`, and everything added is within reach. */
  ghost predicate Yielded(s: seq<char>, dist: int, alphabet: set<char>, used: set<seq<char>>,
                          out: seq<seq<char>>, used': set<seq<char>>)
  {
    && used <= used'
    && (forall w :: w in used' ==> w in used || Reach(s, dist, alphabet, w))
    && (forall w :: w in out <==> w in used' && w !in used)
    && Distinct(out)
  }

  /** `mutations(s, dist, alphabet, used)`, run to completion: `out` lists
      what the generator yields, in order, and `used'` is the shared set
      afterwards. The iteration order of `alphabet` is left open. */
  method Mutations(s: seq<char>, dist: int, alphabet: set<char>, used: set<seq<char>>)
    returns (out: seq<seq<char>>, used': set<seq<char>>)
    ensures forall w :: w in used' <==> w in used || Reach(s, dist, alphabet, w)
    ensures forall w :: w in out <==> w !in used && Reach(s, dist, alphabet, w)
    ensures Distinct(out)
    decreases if dist < 0 then 0 else dist, 2
  {
    used' := used;
    out := [];
    if dist == 0 {
      if s !in used' {
        used' := used' + {s};
        out := out + [s];
      }
      forall w
        ensures Reach(s, dist, alphabet, w) <==> w == s
      {
        ReachZero(s, alphabet, w);
      }
    }
    var d := 0;
    while d < dist
      invariant 0 <= d && (dist <= 0 ==> d == 0)
      invariant Yielded(s, dist, alphabet, used, out, used')
      invariant dist == 0 ==> forall w :: Reach(s, dist, alphabet, w) ==> w in used'
      invariant d > 0 ==> forall w :: Reach(s, dist, alphabet, w) ==> w in used'
    {
      out, used' := SubstituteAll(s, dist, alphabet, used, out, used');
      d := d + 1;
    }
  }

  /** One pass of `for d in range(dist)`: every letter of the alphabet at
      every position, each followed by `mutations(..., dist - 1, ...)`.
      Afterwards everything within reach is in the shared set. */
  method SubstituteAll(s: seq<char>, dist: int, alphabet: set<char>, used: set<seq<char>>,
                       out0: seq<seq<char>>, used0: set<seq<char>>)
    returns (out: seq<seq<char>>, used': set<seq<char>>)
    requires dist > 0 && Yielded(s, dist, alphabet, used, out0, used0)
    ensures Yielded(s, dist, alphabet, used, out, used') && used0 <= used'
    ensures forall w :: Reach(s, dist, alphabet, w) ==> w in used'
    decreases dist, 1
  {
    out, used' := out0, used0;
    var todo := alphabet;
    while todo != {}
      invariant todo <= alphabet
      invariant Yielded(s, dist, alphabet, used, out, used') && used0 <= used'
      invariant forall a, p, w :: a in alphabet - todo && 0 <= p < |s| && Reach(Substitute(s, p, a), dist - 1, alphabet, w) ==> w in used'
      decreases todo
    {
      var letter :| letter in todo;
      out, used' := SubstituteLetter(s, dist, alphabet, used, letter, out, used');
      todo := todo - {letter};
    }
    forall w | Reach(s, dist, alphabet, w)
      ensures w in used'
    {
      ReachStep(s, dist, alphabet, w);
    }
  }

  /** `for pos in range(len(s))` with one `letter`: the recursive call on
      each substitution, its results yielded in turn. */
  method SubstituteLetter(s: seq<char>, dist: int, alphabet: set<char>, used: set<seq<char>>,
                          letter: char, out0: seq<seq<char>>, used0: set<seq<char>>)
    returns (out: seq<seq<char>>, used': set<seq<char>>)
    requires dist > 0 && letter in alphabet && Yielded(s, dist, alphabet, used, out0, used0)
    ensures Yielded(s, dist, alphabet, used, out, used') && used0 <= used'
    ensures forall p, w :: 0 <= p < |s| && Reach(Substitute(s, p, letter), dist - 1, alphabet, w) ==> w in used'
    decreases dist, 0
  {
    out, used' := out0, used0;
    for pos := 0 to |s|
      invariant Yielded(s, dist, alphabet, used, out, used') && used0 <= used'
      invariant forall p, w :: 0 <= p < pos && Reach(Substitute(s, p, letter), dist - 1, alphabet, w) ==> w in used'
    {
      var more, next := Mutations(Substitute(s, pos, letter), dist - 1, alphabet, used');
      forall w | w in more
        ensures Reach(s, dist, alphabet, w)
      {
        ReachStepUp(s, dist, alphabet, w, letter, pos);
      }
      forall i, j | 0 <= i < |out| && 0 <= j < |more|
        ensures out[i] != more[j]
      {
        assert out[i] in out && more[j] in more;
      }
      DistinctAppend(out, more);
      out := out + more;
      used' := next;
    }
  }
}
