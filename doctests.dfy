/** The examples in the docstrings of bwt.py, proved of the model. */
module Doctests {
  import opened Wrappers
  import opened Lex
  import opened Counting
  import opened Sorting
  import opened Construction
  import opened BackwardSearch
  import opened Mutations
  import opened Matching

  /** `'banana\0'` */
  function Banana(): seq<char>
  {
    "banana\0"
  }

  /** The suffixes of `banana` with its terminator, in sorted order. */
  function BananaSorted(): seq<seq<char>>
  {
    ["\0", "a\0", "ana\0", "anana\0", "banana\0", "na\0", "nana\0"]
  }

  lemma BananaSortedIsSorted()
    ensures StrictlySorted(BananaSorted())
  {
    assert Less("\0", "na\0");
    assert Less("a\0", "ana\0");
    assert Less("na\0", "nana\0");
    assert Less("ana\0", "anana\0");
    ChainStrictlySorted(BananaSorted());
  }

  lemma BananaSortedMembers()
    ensures forall x :: x in BananaSorted() <==> x in Suffixes(Banana())
  {
    assert Suffixes(Banana()) == ["banana\0", "anana\0", "nana\0", "ana\0", "na\0", "a\0", "\0"];
  }

  lemma BananaSortedSuffixes()
    ensures Sort(Suffixes(Banana())) == BananaSorted()
  {
    BananaSortedIsSorted();
    BananaSortedMembers();
    SuffixesDistinct(Banana());
    SortIsStrict(Suffixes(Banana()), BananaSorted());
  }

  lemma BananaSuffixLengths()
    ensures |Banana()| == 7
    ensures forall i :: 0 <= i < |Banana()| ==> [6, 5, 3, 1, 0, 4, 2][i] == |Banana()| - |BananaSorted()[i]|
  {
  }

  /** `get_sa('banana\0') == [6, 5, 3, 1, 0, 4, 2]` */
  lemma BananaSuffixArray()
    ensures GetSa(Banana()) == [6, 5, 3, 1, 0, 4, 2]
  {
    BananaSortedSuffixes();
    BananaSuffixLengths();
    SuffixArrayFromSorted(Banana(), BananaSorted(), [6, 5, 3, 1, 0, 4, 2]);
  }

  lemma BananaPreceding(t: seq<char>, sa: seq<nat>, bwt: seq<char>)
    requires t == Banana() && sa == [6, 5, 3, 1, 0, 4, 2] && bwt == "annb\0aa"
    ensures Terminated(t) && |bwt| == |t| == |sa|
    ensures forall i :: 0 <= i < |t| ==> sa[i] < |t| && bwt[i] == if sa[i] == 0 then t[|t| - 1] else t[sa[i] - 1]
  {
  }

  /** `get_bwt('banana\0') == 'annb\x00aa'` */
  lemma BananaTransform()
    ensures GetBwt(Banana()) == "annb\0aa"
  {
    var t, sa, bwt := Banana(), [6, 5, 3, 1, 0, 4, 2], "annb\0aa";
    BananaSuffixArray();
    BananaPreceding(t, sa, bwt);
    BwtFromSuffixArrayValues(t, sa, bwt);
  }

  lemma SassySmaller()
    ensures (set c | c in "sassy") == {'a', 's', 'y'}
    ensures Smaller("sassy", 'a') == 0 && Smaller("sassy", 's') == 1 && Smaller("sassy", 'y') == 4
  {
  }

  /** `get_count('sassy') == {'a': 0, 's': 1, 'y': 4}` */
  method SassyCount() returns (count: map<char, nat>)
    ensures count == map['a' := 0, 's' := 1, 'y' := 4]
  {
    count := GetCount("sassy");
    SassySmaller();
  }

  /** The occurrence lists of the `get_occ` example, letter by letter. */
  function AnnbOcc(): map<char, seq<nat>>
  {
    map['\0' := [0, 0, 0, 0, 1, 1, 1], 'a' := [1, 1, 1, 1, 1, 2, 3],
        'b' := [0, 0, 0, 1, 1, 1, 1], 'n' := [0, 1, 2, 2, 2, 2, 2]]
  }

  /** Each list of the example grows by one exactly where its letter is. */
  lemma AnnbRowSteps(bwt: seq<char>, c: char, row: seq<nat>)
    requires bwt == "annb\0aa"
    requires || (c == '\0' && row == [0, 0, 0, 0, 1, 1, 1])
             || (c == 'a' && row == [1, 1, 1, 1, 1, 2, 3])
             || (c == 'b' && row == [0, 0, 0, 1, 1, 1, 1])
             || (c == 'n' && row == [0, 1, 2, 2, 2, 2, 2])
    ensures forall i :: 0 <= i < |bwt| ==> row[i] == multiset(bwt[..i + 1])[c]
  {
    OccRowFromSteps(bwt, c, row);
  }

  lemma AnnbOccTable(bwt: seq<char>)
    requires bwt == "annb\0aa"
    ensures IsOccTable(bwt, AnnbOcc())
  {
    var occ := AnnbOcc();
    assert (set c | c in bwt) == {'\0', 'a', 'b', 'n'} == occ.Keys;
    AnnbRowSteps(bwt, '\0', occ['\0']);
    AnnbRowSteps(bwt, 'a', occ['a']);
    AnnbRowSteps(bwt, 'b', occ['b']);
    AnnbRowSteps(bwt, 'n', occ['n']);
  }

  /** `get_occ('annb\x00aa')` */
  method AnnbOccurrences() returns (occ: map<char, seq<nat>>)
    ensures occ == AnnbOcc()
  {
    var bwt := "annb\0aa";
    occ := GetOcc(bwt);
    AnnbOccTable(bwt);
    OccTableUnique(bwt, occ, AnnbOcc());
  }

  // ---- `bwt_exact_match('abc', 'abcabcabc')`

  /** `abc` starts at offsets 0, 3 and 6 of `abcabcabc` and nowhere else. */
  lemma AbcStarts(reference: seq<char>, k: int)
    requires reference == "abcabcabc"
    ensures StartsAt(reference, "abc", k) <==> k == 0 || k == 3 || k == 6
  {
    if k == 0 || k == 3 || k == 6 {
      assert reference[k..][..3] == "abc";
    } else if 0 <= k < 7 {
      assert reference[k..][..3][0] == reference[k] != 'a';
    }
  }

  method AbcExactMatch() returns (r: Result<seq<int>>)
    ensures r == Ok([0, 3, 6])
  {
    var query, reference := "abc", "abcabcabc";
    r := BwtExactMatch(query, reference);
    assert EOS !in reference;
    assert query[0] == reference[0] && query[1] == reference[1] && query[2] == reference[2];
    assert LastForeign(query, reference) == None;
    forall k
      ensures k in r.value <==> k in [0, 3, 6]
    {
      AbcStarts(reference, k);
    }
    IncreasingUnique(r.value, [0, 3, 6]);
  }

  // ---- `bwt_inexact_match('abc', 'abcabd', 1)`

  /** No string within one letter of `abc` starts at an offset of
      `abcabd` other than 0 and 3. */
  lemma AbdNoMatch(reference: seq<char>, query: seq<char>, k: int)
    requires reference == "abcabd" && query == "abc"
    requires k != 0 && k != 3
    ensures !MatchAt(reference, query, 1, k)
  {
    if 0 <= k <= |reference| {
      forall w | Reach(query, 1, Alphabet(reference), w)
        ensures !IsPrefix(w, reference[k..])
      {
        if k == 1 {
          assert reference[1..][..3] == "bca";
          assert Hamming("abc", "bca") == 3;
        } else if k == 2 {
          assert reference[2..][..3] == "cab";
          assert Hamming("abc", "cab") == 3;
        }
      }
    }
  }

  /** `abc` itself starts at 0, and `abd`, one letter away, at 3. */
  lemma AbdMatches(reference: seq<char>, query: seq<char>)
    requires reference == "abcabd" && query == "abc"
    ensures MatchAt(reference, query, 1, 0) && MatchAt(reference, query, 1, 3)
  {
    var alphabet := Alphabet(reference);
    assert reference[0] == 'a' && reference[5] == 'd';
    assert 'a' in alphabet && 'd' in alphabet;
    HammingZero(query, query);
    assert Reach(query, 1, alphabet, query);
    assert IsPrefix(query, reference[0..]);
    var abd := "abd";
    assert Hamming("abc", "abd") == 1;
    assert Reach(query, 1, alphabet, abd);
    assert IsPrefix(abd, reference[3..]);
  }

  method AbdInexactMatch() returns (r: Result<seq<int>>)
    ensures r == Ok([0, 3])
  {
    var query, reference := "abc", "abcabd";
    r := BwtInexactMatch(query, reference, 1);
    assert EOS !in reference;
    assert query[0] == reference[0] && query[1] == reference[1] && query[2] == reference[2];
    InexactMatchOfKnownLetters(reference, query, 1);
    AbdMatches(reference, query);
    forall k
      ensures k in r.value <==> k in [0, 3]
    {
      if k != 0 && k != 3 {
        AbdNoMatch(reference, query, k);
      }
    }
    IncreasingUnique(r.value, [0, 3]);
  }

  // ---- `mutations('bad', 1, set(['a', 'b', 'd']))`

  /** The seven strings the example lists, in its order. */
  function BadNeighbours(): seq<seq<char>>
  {
    ["bad", "aad", "baa", "bbd", "bab", "dad", "bdd"]
  }

  /** One substitution by a letter of the alphabet is within distance 1. */
  lemma OneSubstitution(s: seq<char>, alphabet: set<char>, a: char, p: nat)
    requires a in alphabet && p < |s|
    ensures Reach(s, 1, alphabet, s[p := a])
  {
    var w := Substitute(s, p, a);
    ReachZero(w, alphabet, w);
    ReachStepUp(s, 1, alphabet, w, a, p);
  }

  lemma BadReach(s: seq<char>, alphabet: set<char>, w: seq<char>)
    requires s == "bad" && alphabet == {'a', 'b', 'd'}
    ensures Reach(s, 1, alphabet, w) <==> w in BadNeighbours()
  {
    if Reach(s, 1, alphabet, w) {
      ReachStepDown(s, 1, alphabet, w);
      var a, p :| a in alphabet && 0 <= p < |s| && Reach(Substitute(s, p, a), 0, alphabet, w);
      ReachZero(Substitute(s, p, a), alphabet, w);
      BadSubstitution(s, a, p);
    }
    if w in BadNeighbours() {
      BadListed(s, alphabet, w);
    }
  }

  /** Every substitution into `bad` over its alphabet is listed. */
  lemma BadSubstitution(s: seq<char>, a: char, p: nat)
    requires s == "bad" && a in {'a', 'b', 'd'} && p < 3
    ensures s[p := a] in BadNeighbours()
  {
    var n := BadNeighbours();
    if s[p] == a {
      assert s[p := a] == n[0];
    } else if p == 0 {
      assert s[0 := a] == if a == 'a' then n[1] else n[5];
    } else if p == 1 {
      assert s[1 := a] == if a == 'b' then n[3] else n[6];
    } else {
      assert s[2 := a] == if a == 'a' then n[2] else n[4];
    }
  }

  /** Every listed string is one substitution away from `bad`. */
  lemma BadListed(s: seq<char>, alphabet: set<char>, w: seq<char>)
    requires s == "bad" && alphabet == {'a', 'b', 'd'} && w in BadNeighbours()
    ensures Reach(s, 1, alphabet, w)
  {
    var n := BadNeighbours();
    if w == n[0] {
      OneSubstitution(s, alphabet, 'b', 0);
      assert s[0 := 'b'] == w;
    } else if w == n[1] {
      OneSubstitution(s, alphabet, 'a', 0);
      assert s[0 := 'a'] == w;
    } else if w == n[2] {
      OneSubstitution(s, alphabet, 'a', 2);
      assert s[2 := 'a'] == w;
    } else if w == n[3] {
      OneSubstitution(s, alphabet, 'b', 1);
      assert s[1 := 'b'] == w;
    } else if w == n[4] {
      OneSubstitution(s, alphabet, 'b', 2);
      assert s[2 := 'b'] == w;
    } else if w == n[5] {
      OneSubstitution(s, alphabet, 'd', 0);
      assert s[0 := 'd'] == w;
    } else if w == n[6] {
      OneSubstitution(s, alphabet, 'd', 1);
      assert s[1 := 'd'] == w;
    }
  }

  /** The example yields the seven strings it lists, each once; the order
      follows the iteration order of the set, which is left open. */
  method BadMutations() returns (out: seq<seq<char>>)
    ensures Distinct(out)
    ensures forall w :: w in out <==> w in BadNeighbours()
  {
    var s, alphabet := "bad", {'a', 'b', 'd'};
    var used;
    out, used := Mutations.Mutations(s, 1, alphabet, {});
    forall w
      ensures w in out <==> w in BadNeighbours()
    {
      BadReach(s, alphabet, w);
    }
  }
}
