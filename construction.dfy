/** Index construction in bwt.py: the Burrows-Wheeler transform (`get_bwt`),
    the suffix array (`get_sa`), the occurrence table (`get_occ`) and the
    count table (`get_count`). */
module Construction {
  import opened Lex
  import opened Counting
  import opened Sorting

  /** `EOS`, the terminator appended to the reference (code point 0, so it
      is below every other character). */
  const EOS: char := '\0'

  // ---- get_bwt

  /** The rotation table `[s[i:] + s[:i] for i in range(len(s))]`. */
  function Rotations(s: seq<char>): (table: seq<seq<char>>)
    ensures |table| == |s|
  {
    seq(|s|, i requires 0 <= i < |s| => s[i..] + s[..i])
  }

  /** `[row[-1] for row in table]` */
  function LastColumn(table: seq<seq<char>>): (col: seq<char>)
    requires forall i :: 0 <= i < |table| ==> |table[i]| > 0
    ensures |col| == |table|
  {
    seq(|table|, i requires 0 <= i < |table| => table[i][|table[i]| - 1])
  }

  /** Every row of the sorted rotation table is as long as `s`. */
  lemma SortedRotationsLength(s: seq<char>)
    ensures |Sort(Rotations(s))| == |s|
    ensures forall i :: 0 <= i < |Sort(Rotations(s))| ==> |Sort(Rotations(s))[i]| == |s|
  {
    var table := Sort(Rotations(s));
    assert |table| == |multiset(table)| == |Rotations(s)|;
    forall i | 0 <= i < |table|
      ensures |table[i]| == |s|
    {
      assert table[i] in multiset(Rotations(s));
    }
  }

  /** `get_bwt(s)`: the last column of the sorted rotations of `s`. */
  function GetBwt(s: seq<char>): (bwt: seq<char>)
    ensures |bwt| == |s|
  {
    SortedRotationsLength(s);
    LastColumn(Sort(Rotations(s)))
  }

  /** The last letter of a row (total, for mapping over tables). */
  function LastChar(row: seq<char>): char
  {
    if |row| == 0 then EOS else row[|row| - 1]
  }

  /** The transform maps `LastChar` over the sorted rotations. */
  lemma BwtIsLastChars(s: seq<char>)
    ensures GetBwt(s) == MapSeq(LastChar, Sort(Rotations(s)))
  {
    var table := Sort(Rotations(s));
    SortedRotationsLength(s);
    forall i | 0 <= i < |table|
      ensures GetBwt(s)[i] == LastChar(table[i])
    {
      assert |table[i]| > 0;
    }
  }

  /** The last letters of the rotations, in rotation order, are `s` rotated
      right by one. */
  lemma LastCharsOfRotations(s: seq<char>)
    requires |s| > 0
    ensures MapSeq(LastChar, Rotations(s)) == [s[|s| - 1]] + s[..|s| - 1]
  {
    var n, rot := |s|, Rotations(s);
    forall i | 0 <= i < n
      ensures MapSeq(LastChar, rot)[i] == ([s[n - 1]] + s[..n - 1])[i]
    {
      assert rot[i] == s[i..] + s[..i];
      assert |rot[i]| == n;
      assert MapSeq(LastChar, rot)[i] == LastChar(rot[i]) == rot[i][n - 1];
      if i == 0 {
        assert rot[i][n - 1] == s[n - 1];
      } else {
        assert rot[i][n - 1] == s[..i][i - 1] == s[i - 1];
        assert ([s[n - 1]] + s[..n - 1])[i] == s[..n - 1][i - 1];
      }
    }
  }

  /** The last letters of the rotations are the letters of `s`. */
  lemma LastCharsPermutation(s: seq<char>)
    ensures multiset(MapSeq(LastChar, Rotations(s))) == multiset(s)
  {
    var n, rot := |s|, Rotations(s);
    if n > 0 {
      LastCharsOfRotations(s);
      calc {
        multiset(MapSeq(LastChar, rot));
        multiset([s[n - 1]] + s[..n - 1]);
        { assert s == s[..n - 1] + [s[n - 1]]; }
        multiset(s);
      }
    }
  }

  /** The transform rearranges the letters of `s`: same length, same
      multiset of letters. */
  lemma BwtIsPermutation(s: seq<char>)
    ensures |GetBwt(s)| == |s|
    ensures multiset(GetBwt(s)) == multiset(s)
  {
    var rot := Rotations(s);
    BwtIsLastChars(s);
    MapPermutation(LastChar, Sort(rot), rot);
    LastCharsPermutation(s);
    var bwt := GetBwt(s);
    assert |bwt| == |multiset(bwt)| == |multiset(s)| == |s|;
  }

  // ---- get_sa

  /** `[s[i:] for i in range(len(s))]` */
  function Suffixes(s: seq<char>): (suffixes: seq<seq<char>>)
    ensures |suffixes| == |s|
  {
    seq(|s|, k requires 0 <= k < |s| => s[k..])
  }

  /** Python's `xs.index(x)`: the first position holding `x`. */
  function Index(xs: seq<seq<char>>, x: seq<char>): (k: nat)
    requires x in xs
    ensures k < |xs| && xs[k] == x
    ensures x !in xs[..k]
  {
    if xs[0] == x then 0
    else
      assert xs == [xs[0]] + xs[1..];
      var k := Index(xs[1..], x);
      assert xs[..k + 1] == [xs[0]] + xs[1..][..k];
      1 + k
  }

  /** `get_sa(s)`: for each suffix in sorted order, the offset it starts at. */
  function GetSa(s: seq<char>): (sa: seq<nat>)
    ensures |sa| == |s|
    ensures forall i :: 0 <= i < |sa| ==> sa[i] < |s|
  {
    var suffixes := Suffixes(s);
    var sorted := Sort(suffixes);
    SortMembers(suffixes);
    seq(|sorted|, i requires 0 <= i < |sorted| => Index(suffixes, sorted[i]))
  }

  /** A suffix is found at its own offset. */
  lemma IndexOfSuffix(s: seq<char>, x: seq<char>)
    requires x in Suffixes(s)
    ensures Index(Suffixes(s), x) == |s| - |x|
    ensures s[|s| - |x|..] == x
  {
  }

  /** Suffixes of one string differ in length, so none is repeated. */
  lemma SuffixesDistinct(s: seq<char>)
    ensures Distinct(Suffixes(s))
  {
    forall i, j | 0 <= i < j < |s|
      ensures Suffixes(s)[i] != Suffixes(s)[j]
    {
      assert |Suffixes(s)[i]| != |Suffixes(s)[j]|;
    }
  }

  /** The sorted suffixes: as many as the suffixes, each one a suffix, none
      repeated. */
  lemma SortedSuffixesFacts(s: seq<char>)
    ensures |Sort(Suffixes(s))| == |s|
    ensures Distinct(Sort(Suffixes(s)))
    ensures forall i :: 0 <= i < |s| ==> Sort(Suffixes(s))[i] in Suffixes(s)
  {
    var sorted := Sort(Suffixes(s));
    assert |sorted| == |multiset(sorted)| == |s|;
    SuffixesDistinct(s);
    DistinctPermutation(sorted, Suffixes(s));
    forall i | 0 <= i < |s|
      ensures sorted[i] in Suffixes(s)
    {
      assert sorted[i] in multiset(sorted);
    }
  }

  /** The sorted suffixes are strictly increasing. */
  lemma SortedSuffixesStrict(s: seq<char>)
    ensures |Sort(Suffixes(s))| == |s|
    ensures StrictlySorted(Sort(Suffixes(s)))
  {
    SortedSuffixesFacts(s);
    SortIsSorted(Suffixes(s));
    SortedDistinctStrict(Sort(Suffixes(s)));
  }

  /** Row `i` of the suffix array holds the offset of the `i`-th smallest
      suffix. */
  lemma SuffixArrayRows(s: seq<char>)
    ensures |GetSa(s)| == |s|
    ensures forall i :: 0 <= i < |s| ==> GetSa(s)[i] < |s| && s[GetSa(s)[i]..] == Sort(Suffixes(s))[i]
  {
    SortedSuffixesFacts(s);
    forall i | 0 <= i < |s|
      ensures GetSa(s)[i] < |s| && s[GetSa(s)[i]..] == Sort(Suffixes(s))[i]
    {
      IndexOfSuffix(s, Sort(Suffixes(s))[i]);
    }
  }

  /** The entry of row `i` is read off the length of the `i`-th smallest
      suffix. */
  lemma SuffixArrayLengths(s: seq<char>)
    ensures |GetSa(s)| == |Sort(Suffixes(s))| == |s|
    ensures forall i :: 0 <= i < |s| ==> GetSa(s)[i] == |s| - |Sort(Suffixes(s))[i]|
  {
    SuffixArrayRows(s);
  }

  /** The suffix array is determined by the sorted suffixes. */
  lemma SuffixArrayFromSorted(s: seq<char>, sorted: seq<seq<char>>, sa: seq<nat>)
    requires Sort(Suffixes(s)) == sorted && |sa| == |s|
    requires forall i :: 0 <= i < |s| ==> sa[i] == |s| - |sorted[i]|
    ensures GetSa(s) == sa
  {
    SuffixArrayLengths(s);
  }

  /** `get_sa(s)` is a permutation of `range(len(s))`: its entries are
      offsets of `s`, ... */
  lemma SuffixArrayIsPermutation(s: seq<char>)
    ensures |GetSa(s)| == |s|
    ensures forall i :: 0 <= i < |s| ==> GetSa(s)[i] < |s|
    ensures Distinct(GetSa(s))
    ensures forall k :: 0 <= k < |s| ==> k in GetSa(s)
  {
    SuffixArrayDistinct(s);
    SuffixArrayCovers(s);
  }

  /** ... none repeated ... */
  lemma SuffixArrayDistinct(s: seq<char>)
    ensures |GetSa(s)| == |s|
    ensures forall i :: 0 <= i < |s| ==> GetSa(s)[i] < |s|
    ensures Distinct(GetSa(s))
  {
    var sa, sorted := GetSa(s), Sort(Suffixes(s));
    SuffixArrayRows(s);
    SortedSuffixesFacts(s);
    forall i, j | 0 <= i < j < |s|
      ensures sa[i] != sa[j]
    {
      assert s[sa[i]..] == sorted[i] && s[sa[j]..] == sorted[j];
    }
  }

  /** ... and every offset present. */
  lemma SuffixArrayCovers(s: seq<char>)
    ensures forall k :: 0 <= k < |s| ==> k in GetSa(s)
  {
    SuffixArrayRows(s);
    SuffixesDistinct(s);
    PermutationPositions(Suffixes(s), Sort(Suffixes(s)), GetSa(s));
  }

  /** ... whose suffixes appear in strictly increasing order. */
  lemma SuffixArraySorted(s: seq<char>)
    ensures |GetSa(s)| == |s|
    ensures forall i, j :: 0 <= i < j < |s| ==> Less(s[GetSa(s)[i]..], s[GetSa(s)[j]..])
  {
    SuffixArrayRows(s);
    SortedSuffixesStrict(s);
  }

  // ---- the terminated reference

  /** `s` ends with `EOS` and has no other `EOS`, as `reference + EOS`
      does after the check in `get_bwt_data`. */
  predicate Terminated(s: seq<char>)
  {
    |s| > 0 && s[|s| - 1] == EOS && EOS !in s[..|s| - 1]
  }

  lemma EosSmallest(c: char)
    requires c != EOS
    ensures EOS < c
  {
  }

  /** No non-empty string is below the terminator alone. */
  lemma NothingBelowTerminator(x: seq<char>)
    requires |x| > 0
    ensures !Less(x, [EOS])
  {
    assert [EOS][1..] == [];
  }

  /** With a unique smallest terminator, the smallest suffix is the
      terminator itself: `get_sa(s)[0] == len(s) - 1`. */
  lemma SuffixArrayStartsAtTerminator(s: seq<char>)
    requires Terminated(s)
    ensures GetSa(s)[0] == |s| - 1
  {
    var n, sa := |s|, GetSa(s);
    SuffixArrayIsPermutation(s);
    SuffixArraySorted(s);
    assert n - 1 in sa;
    var j :| 0 <= j < n && sa[j] == n - 1;
    assert s[n - 1..] == [EOS];
    NothingBelowTerminator(s[sa[0]..]);
  }

  /** Two different suffixes of a terminated string: neither is a prefix of
      the other. */
  lemma TerminatedNoPrefix(s: seq<char>, a: nat, b: nat)
    requires Terminated(s) && a < |s| && b < |s| && a != b
    ensures !IsPrefix(s[a..], s[b..])
  {
    var n := |s|;
    if a > b {
      assert s[a..][n - a - 1] == EOS;
      assert s[b..][n - a - 1] == s[..n - 1][b + n - a - 1];
      assert s[b..][..n - a][n - a - 1] != s[a..][n - a - 1];
    }
  }

  /** The rotation that starts with suffix `x` of `t`. */
  function RotationOf(t: seq<char>): seq<char> -> seq<char>
  {
    x => if |x| <= |t| then x + t[..|t| - |x|] else x
  }

  /** Each suffix, completed to its rotation, gives the rotation table. */
  lemma RotationsOfSuffixes(t: seq<char>)
    ensures MapSeq(RotationOf(t), Suffixes(t)) == Rotations(t)
  {
    var n := |t|;
    forall k | 0 <= k < n
      ensures MapSeq(RotationOf(t), Suffixes(t))[k] == Rotations(t)[k]
    {
      assert |t[k..]| == n - k;
    }
  }

  /** Completing the sorted suffixes to rotations keeps them sorted. */
  lemma RotationsOfSortedSuffixesSorted(t: seq<char>)
    requires Terminated(t)
    ensures Sorted(MapSeq(RotationOf(t), Sort(Suffixes(t))))
  {
    var n, sa, sorted := |t|, GetSa(t), Sort(Suffixes(t));
    var mapped := MapSeq(RotationOf(t), sorted);
    SuffixArrayRows(t);
    SuffixArrayDistinct(t);
    SortedSuffixesStrict(t);
    forall i, j | 0 <= i < j < n
      ensures LessEq(mapped[i], mapped[j])
    {
      var x, y := sorted[i], sorted[j];
      assert x == t[sa[i]..] && y == t[sa[j]..];
      TerminatedNoPrefix(t, sa[i], sa[j]);
      LessExtend(x, y, t[..n - |x|], t[..n - |y|]);
    }
  }

  /** With a unique smallest terminator, sorting rotations orders them as
      their suffixes are ordered. */
  lemma SortedRotationsFollowSuffixes(t: seq<char>)
    requires Terminated(t)
    ensures Sort(Rotations(t)) == MapSeq(RotationOf(t), Sort(Suffixes(t)))
  {
    var mapped := MapSeq(RotationOf(t), Sort(Suffixes(t)));
    RotationsOfSortedSuffixesSorted(t);
    MapPermutation(RotationOf(t), Sort(Suffixes(t)), Suffixes(t));
    RotationsOfSuffixes(t);
    SortIsSorted(Rotations(t));
    SortedUnique(Sort(Rotations(t)), mapped);
  }

  /** The letter that precedes suffix `x` in `t`, cyclically. */
  function Prev(t: seq<char>, x: seq<char>): char
    requires 0 < |t|
  {
    if |x| < |t| then t[|t| - |x| - 1] else t[|t| - 1]
  }

  /** Row `i` of the transform is the letter before the `i`-th smallest
      suffix. */
  lemma BwtRowPrecedesSuffix(t: seq<char>, i: nat)
    requires Terminated(t) && i < |t|
    ensures |GetBwt(t)| == |t| && |Sort(Suffixes(t))| == |t|
    ensures GetBwt(t)[i] == Prev(t, Sort(Suffixes(t))[i])
  {
    BwtIsPermutation(t);
    SortedRotationsFollowSuffixes(t);
    SortedSuffixesFacts(t);
    SuffixArrayRows(t);
    SortedRotationsLength(t);
    var k := GetSa(t)[i];
    assert Sort(Rotations(t))[i] == t[k..] + t[..k];
  }

  /** The transform through the suffix array: `get_bwt(s)[i] ==
      s[sa[i] - 1]`, where index -1 is Python's last letter. */
  lemma BwtFromSuffixArray(t: seq<char>)
    requires Terminated(t)
    ensures |GetBwt(t)| == |GetSa(t)| == |t|
    ensures forall i :: 0 <= i < |t| ==>
      GetBwt(t)[i] == if GetSa(t)[i] == 0 then t[|t| - 1] else t[GetSa(t)[i] - 1]
  {
    SuffixArrayRows(t);
    BwtIsPermutation(t);
    forall i | 0 <= i < |t|
      ensures GetBwt(t)[i] == if GetSa(t)[i] == 0 then t[|t| - 1] else t[GetSa(t)[i] - 1]
    {
      BwtRowPrecedesSuffix(t, i);
      PrevOfSuffix(t, GetSa(t)[i]);
    }
  }

  /** The transform is determined by the suffix array. */
  lemma BwtFromSuffixArrayValues(t: seq<char>, sa: seq<nat>, bwt: seq<char>)
    requires Terminated(t) && GetSa(t) == sa && |bwt| == |t| == |sa|
    requires forall i :: 0 <= i < |t| ==> sa[i] < |t| && bwt[i] == if sa[i] == 0 then t[|t| - 1] else t[sa[i] - 1]
    ensures GetBwt(t) == bwt
  {
    BwtFromSuffixArray(t);
  }

  lemma PrevOfSuffix(t: seq<char>, k: nat)
    requires k < |t|
    ensures Prev(t, t[k..]) == if k == 0 then t[|t| - 1] else t[k - 1]
  {
  }

  // ---- get_occ

  /** `occ` is what `get_occ(bwt)` returns: one list per letter of `bwt`,
      `occ[c][i]` the number of `c` in `bwt[0..i]`. */
  ghost predicate IsOccTable(bwt: seq<char>, occ: map<char, seq<nat>>)
  {
    && occ.Keys == (set c | c in bwt)
    && forall c :: c in occ ==>
        && |occ[c]| == |bwt|
        && forall i :: 0 <= i < |bwt| ==> occ[c][i] == multiset(bwt[..i + 1])[c]
  }

  /** There is one occurrence table per string. */
  lemma OccTableUnique(bwt: seq<char>, occ: map<char, seq<nat>>, other: map<char, seq<nat>>)
    requires IsOccTable(bwt, occ) && IsOccTable(bwt, other)
    ensures occ == other
  {
    forall c | c in occ
      ensures occ[c] == other[c]
    {
    }
  }

  /** `get_occ(bwt)` */
  method GetOcc(bwt: seq<char>) returns (occ: map<char, seq<nat>>)
    ensures IsOccTable(bwt, occ)
  {
    var letters := set c | c in bwt;
    occ := map[];
    var todo := letters;
    while todo != {}
      invariant todo <= letters
      invariant occ.Keys == letters - todo
      invariant forall c :: c in occ ==>
        && |occ[c]| == |bwt|
        && forall i :: 0 <= i < |bwt| ==> occ[c][i] == multiset(bwt[..i + 1])[c]
      decreases todo
    {
      var letter :| letter in todo;
      occ := occ[letter := []];
      for i := 0 to |bwt|
        invariant occ.Keys == letters - todo + {letter}
        invariant |occ[letter]| == i
        invariant forall j :: 0 <= j < i ==> occ[letter][j] == multiset(bwt[..j + 1])[letter]
        invariant forall c :: c in occ && c != letter ==>
          && |occ[c]| == |bwt|
          && forall j :: 0 <= j < |bwt| ==> occ[c][j] == multiset(bwt[..j + 1])[c]
      {
        occ := occ[letter := occ[letter] + [multiset(bwt[..i + 1])[letter]]];
      }
      todo := todo - {letter};
    }
  }

  /** Each list starts at 0 or 1, never decreases, and rises by one exactly
      where the transform holds its letter. */
  lemma OccSteps(bwt: seq<char>, occ: map<char, seq<nat>>, c: char, i: nat)
    requires IsOccTable(bwt, occ) && c in occ && i + 1 < |bwt|
    ensures occ[c][0] == (if bwt[0] == c then 1 else 0)
    ensures occ[c][i + 1] == occ[c][i] + (if bwt[i + 1] == c then 1 else 0)
  {
    assert bwt[..1] == [bwt[0]];
    assert bwt[..i + 2] == bwt[..i + 1] + [bwt[i + 1]];
  }

  /** Conversely, a list that starts and grows as OccSteps says is the
      list of running counts of its letter. */
  lemma {:induction false} OccRowFromSteps(bwt: seq<char>, c: char, row: seq<nat>)
    requires |row| == |bwt| > 0
    requires row[0] == (if bwt[0] == c then 1 else 0)
    requires forall i :: 0 <= i < |bwt| - 1 ==> row[i + 1] == row[i] + (if bwt[i + 1] == c then 1 else 0)
    ensures forall i :: 0 <= i < |bwt| ==> row[i] == multiset(bwt[..i + 1])[c]
  {
    forall i | 0 <= i < |bwt|
      ensures row[i] == multiset(bwt[..i + 1])[c]
    {
      OccRowAt(bwt, c, row, i);
    }
  }

  lemma {:induction false} OccRowAt(bwt: seq<char>, c: char, row: seq<nat>, i: nat)
    requires i < |row| == |bwt|
    requires row[0] == (if bwt[0] == c then 1 else 0)
    requires forall j :: 0 <= j < |bwt| - 1 ==> row[j + 1] == row[j] + (if bwt[j + 1] == c then 1 else 0)
    ensures row[i] == multiset(bwt[..i + 1])[c]
  {
    if i == 0 {
      assert bwt[..1] == [bwt[0]];
    } else {
      OccRowAt(bwt, c, row, i - 1);
      assert bwt[..i + 1] == bwt[..i] + [bwt[i]];
    }
  }

  /** The last entry of each list is the letter's total. */
  lemma OccLast(bwt: seq<char>, occ: map<char, seq<nat>>, c: char)
    requires IsOccTable(bwt, occ) && c in occ
    ensures |bwt| > 0 && occ[c][|bwt| - 1] == multiset(bwt)[c]
  {
    assert bwt[..|bwt|] == bwt;
  }

  /** `sum(occ[c][i] for c in letters)` */
  function ColumnSum(occ: map<char, seq<nat>>, letters: seq<char>, i: nat): int
    requires forall k :: 0 <= k < |letters| ==> letters[k] in occ && i < |occ[letters[k]]|
  {
    if |letters| == 0 then 0 else occ[letters[0]][i] + ColumnSum(occ, letters[1..], i)
  }

  /** `sum(multiset(p)[c] for c in letters)` */
  function LetterSum(letters: seq<char>, p: seq<char>): int
  {
    if |letters| == 0 then 0 else multiset(p)[letters[0]] + LetterSum(letters[1..], p)
  }

  lemma {:induction false} LetterSumAppend(letters: seq<char>, p: seq<char>, x: char)
    requires Distinct(letters)
    ensures LetterSum(letters, p + [x]) == LetterSum(letters, p) + (if x in letters then 1 else 0)
    decreases |letters|
  {
    if |letters| > 0 {
      assert Distinct(letters[1..]) by {
        forall i, j | 0 <= i < j < |letters[1..]|
          ensures letters[1..][i] != letters[1..][j]
        {
          assert letters[1..][i] == letters[i + 1] && letters[1..][j] == letters[j + 1];
        }
      }
      LetterSumAppend(letters[1..], p, x);
      assert letters == [letters[0]] + letters[1..];
      if x == letters[0] {
        assert x !in letters[1..] by {
          forall k | 0 <= k < |letters[1..]|
            ensures letters[1..][k] != x
          {
            assert letters[1..][k] == letters[k + 1];
          }
        }
      }
    }
  }

  lemma {:induction false} LetterSumCovers(letters: seq<char>, p: seq<char>)
    requires Distinct(letters) && forall k :: 0 <= k < |p| ==> p[k] in letters
    ensures LetterSum(letters, p) == |p|
    decreases |p|
  {
    if |p| == 0 {
      LetterSumEmpty(letters, p);
    } else {
      var q := p[..|p| - 1];
      assert p == q + [p[|p| - 1]];
      LetterSumCovers(letters, q);
      LetterSumAppend(letters, q, p[|p| - 1]);
    }
  }

  lemma {:induction false} LetterSumEmpty(letters: seq<char>, p: seq<char>)
    requires |p| == 0
    ensures LetterSum(letters, p) == 0
    decreases |letters|
  {
    if |letters| > 0 {
      LetterSumEmpty(letters[1..], p);
    }
  }

  lemma {:induction false} ColumnSumIsLetterSum(bwt: seq<char>, occ: map<char, seq<nat>>, letters: seq<char>, i: nat)
    requires IsOccTable(bwt, occ) && i < |bwt|
    requires forall k :: 0 <= k < |letters| ==> letters[k] in occ
    ensures ColumnSum(occ, letters, i) == LetterSum(letters, bwt[..i + 1])
    decreases |letters|
  {
    if |letters| > 0 {
      ColumnSumIsLetterSum(bwt, occ, letters[1..], i);
    }
  }

  /** At every position, the lists of all letters together count every
      letter read so far: they sum to `i + 1`. */
  lemma OccColumnSum(bwt: seq<char>, occ: map<char, seq<nat>>, letters: seq<char>, i: nat)
    requires IsOccTable(bwt, occ) && i < |bwt|
    requires Distinct(letters) && forall c :: c in letters <==> c in occ
    ensures ColumnSum(occ, letters, i) == i + 1
  {
    ColumnSumIsLetterSum(bwt, occ, letters, i);
    var p := bwt[..i + 1];
    forall k | 0 <= k < |p|
      ensures p[k] in letters
    {
      assert p[k] == bwt[k] && bwt[k] in occ;
    }
    LetterSumCovers(letters, p);
  }

  // ---- get_count

  function CharBelow(c: char): char -> bool
  {
    x => x < c
  }

  /** `len([i for i in s if i < letter])` */
  function Smaller(s: seq<char>, letter: char): (n: nat)
    ensures n <= |s|
  {
    CountIf(s, CharBelow(letter))
  }

  /** `count` is what `get_count(s)` returns. */
  ghost predicate IsCountTable(s: seq<char>, count: map<char, nat>)
  {
    && count.Keys == (set c | c in s)
    && forall c :: c in count ==> count[c] == Smaller(s, c)
  }

  /** `get_count(s)` */
  method GetCount(s: seq<char>) returns (count: map<char, nat>)
    ensures IsCountTable(s, count)
  {
    var letters := set c | c in s;
    count := map[];
    var todo := letters;
    while todo != {}
      invariant todo <= letters
      invariant count.Keys == letters - todo
      invariant forall c :: c in count ==> count[c] == Smaller(s, c)
      decreases todo
    {
      var letter :| letter in todo;
      count := count[letter := Smaller(s, letter)];
      todo := todo - {letter};
    }
  }

  /** The smallest letter of `s` has nothing below it. */
  lemma {:induction false} SmallestLetterCountsZero(s: seq<char>, c: char)
    requires forall k :: 0 <= k < |s| ==> c <= s[k]
    ensures Smaller(s, c) == 0
    decreases |s|
  {
    if |s| > 0 {
      SmallestLetterCountsZero(s[1..], c);
    }
  }

  /** The blocks of the letters do not overlap: for `a < b`, the symbols
      below `a` and the copies of `a` are all below `b`. */
  lemma {:induction false} CountBlocksOrdered(s: seq<char>, a: char, b: char)
    requires a < b
    ensures Smaller(s, a) + multiset(s)[a] <= Smaller(s, b)
    decreases |s|
  {
    if |s| > 0 {
      assert s == [s[0]] + s[1..];
      CountBlocksOrdered(s[1..], a, b);
    }
  }
}
