/** Backward search over the index (`use_occ` and `bwt_interval` in
    bwt.py): the rows of the sorted suffix table whose suffix starts with a
    query, narrowed one query letter at a time from the last letter to the
    first. */
module BackwardSearch {
  import opened Wrappers
  import opened Lex
  import opened Counting
  import opened Sorting
  import opened Construction

  // ---- where a string falls in the sorted suffix table

  /** `x` sorts before every string that starts with `w` (`incl` false), or
      before or inside that block (`incl` true). */
  predicate Below(x: seq<char>, w: seq<char>, incl: bool)
  {
    Less(x, w) || (incl && IsPrefix(w, x))
  }

  function BelowP(w: seq<char>, incl: bool): seq<char> -> bool
  {
    x => Below(x, w, incl)
  }

  /** The number of suffixes of `t` below the block of `w`; with `incl`,
      below or inside it. These are the two ends of the block of rows of
      the sorted suffix table whose suffixes start with `w`. */
  function Bound(t: seq<char>, w: seq<char>, incl: bool): (n: nat)
    ensures n <= |t|
  {
    CountIf(Suffixes(t), BelowP(w, incl))
  }

  /** `w` occurs in `t`: some suffix of `t` starts with `w`. */
  ghost predicate Occurs(t: seq<char>, w: seq<char>)
  {
    exists k :: 0 <= k < |t| && IsPrefix(w, t[k..])
  }

  /** Being below the block of `w` is closed downwards in the sorted table,
      so those rows are exactly the first `Bound` rows. */
  lemma BoundRows(t: seq<char>, w: seq<char>, incl: bool)
    ensures |Sort(Suffixes(t))| == |t|
    ensures forall j :: 0 <= j < |t| ==> (Below(Sort(Suffixes(t))[j], w, incl) <==> j < Bound(t, w, incl))
  {
    var sorted := Sort(Suffixes(t));
    SortedSuffixesStrict(t);
    forall i, j | 0 <= i < j < |sorted| && BelowP(w, incl)(sorted[j])
      ensures BelowP(w, incl)(sorted[i])
    {
      var x, y := sorted[i], sorted[j];
      assert Less(x, y);
      if Less(y, w) {
        LessTransitive(x, y, w);
      } else {
        LessBeforePrefixBlock(x, y, w);
      }
    }
    CountIfDownClosed(sorted, BelowP(w, incl));
    CountIfPermutation(sorted, Suffixes(t), BelowP(w, incl));
  }

  function PrefixedBy(w: seq<char>): seq<char> -> bool
  {
    x => IsPrefix(w, x)
  }

  /** The block of `w` holds one row per occurrence of `w`. */
  lemma BlockSize(t: seq<char>, w: seq<char>)
    ensures Bound(t, w, true) == Bound(t, w, false) + CountIf(Suffixes(t), PrefixedBy(w))
  {
    var suffixes := Suffixes(t);
    forall i | 0 <= i < |suffixes|
      ensures !(BelowP(w, false)(suffixes[i]) && PrefixedBy(w)(suffixes[i]))
    {
      if IsPrefix(w, suffixes[i]) {
        PrefixNotLess(w, suffixes[i]);
      }
    }
    CountIfDisjointUnion(suffixes, BelowP(w, true), BelowP(w, false), PrefixedBy(w));
  }

  /** `w` occurs in `t` exactly when its block is not empty. */
  lemma OccursIffNonEmpty(t: seq<char>, w: seq<char>)
    ensures Occurs(t, w) <==> Bound(t, w, false) < Bound(t, w, true)
  {
    BlockSize(t, w);
    CountIfPositive(Suffixes(t), PrefixedBy(w));
    if Occurs(t, w) {
      var k :| 0 <= k < |t| && IsPrefix(w, t[k..]);
      assert PrefixedBy(w)(Suffixes(t)[k]);
    }
    if CountIf(Suffixes(t), PrefixedBy(w)) > 0 {
      var k :| 0 <= k < |t| && PrefixedBy(w)(Suffixes(t)[k]);
      assert IsPrefix(w, t[k..]);
    }
  }

  /** The empty query's block is the whole table. */
  lemma EmptyBlock(t: seq<char>)
    ensures Bound(t, [], false) == 0 && Bound(t, [], true) == |t|
  {
    CountIfPositive(Suffixes(t), BelowP([], false));
    CountIfAll(Suffixes(t), BelowP([], true));
  }

  /** Row `j` of the suffix array lies in the block of `w` exactly when the
      suffix at offset `sa[j]` starts with `w`. */
  lemma BlockRows(t: seq<char>, w: seq<char>)
    ensures |GetSa(t)| == |t|
    ensures forall j :: 0 <= j < |t| ==>
      (Bound(t, w, false) <= j < Bound(t, w, true) <==> IsPrefix(w, t[GetSa(t)[j]..]))
  {
    SuffixArrayRows(t);
    BoundRows(t, w, false);
    BoundRows(t, w, true);
    forall j | 0 <= j < |t|
      ensures Bound(t, w, false) <= j < Bound(t, w, true) <==> IsPrefix(w, t[GetSa(t)[j]..])
    {
      var x := Sort(Suffixes(t))[j];
      if IsPrefix(w, x) {
        PrefixNotLess(w, x);
      }
    }
  }

  /** The suffix array entries of the block of `w` are the offsets where
      `w` occurs. */
  lemma BlockOffsets(t: seq<char>, w: seq<char>)
    ensures |GetSa(t)| == |t|
    ensures Bound(t, w, false) <= Bound(t, w, true) <= |t|
    ensures forall k :: k in GetSa(t)[Bound(t, w, false)..Bound(t, w, true)] <==>
      0 <= k < |t| && IsPrefix(w, t[k..])
  {
    SuffixArrayIsPermutation(t);
    BlockRows(t, w);
    BlockSize(t, w);
    SliceMembers(GetSa(t), |t|, Bound(t, w, false), Bound(t, w, true), OccursAt(t, w));
  }

  function OccursAt(t: seq<char>, w: seq<char>): nat -> bool
  {
    (k: nat) => k <= |t| && IsPrefix(w, t[k..])
  }

  /** A later part of the query occurs wherever an earlier part does. */
  lemma OccursSuffix(t: seq<char>, q: seq<char>, a: nat, b: nat)
    requires a <= b <= |q| && Occurs(t, q[a..])
    ensures Occurs(t, q[b..])
  {
    var k :| 0 <= k < |t| && IsPrefix(q[a..], t[k..]);
    if b == |q| {
      assert IsPrefix(q[b..], t[k..]);
    } else {
      var k' := k + (b - a);
      assert t[k'..][..|q| - b] == t[k..][..|q| - a][b - a..];
      assert IsPrefix(q[b..], t[k'..]);
    }
  }

  // ---- one step of the search

  function StartsBelow(c: char): seq<char> -> bool
  {
    x => |x| > 0 && x[0] < c
  }

  function HeadThen(c: char, w: seq<char>, incl: bool): seq<char> -> bool
  {
    x => |x| > 0 && x[0] == c && Below(x[1..], w, incl)
  }

  function PrecededBelow(t: seq<char>, c: char, w: seq<char>, incl: bool): seq<char> -> bool
  {
    x => 0 < |t| && Prev(t, x) == c && Below(x, w, incl)
  }

  function IsChar(c: char): char -> bool
  {
    x => x == c
  }

  /** Below the block of `[c] + w` are the suffixes that start below `c`
      and those that start with `c` and continue below the block of `w`. */
  lemma ConsSplit(t: seq<char>, c: char, w: seq<char>, incl: bool)
    ensures Bound(t, [c] + w, incl) ==
      CountIf(Suffixes(t), StartsBelow(c)) + CountIf(Suffixes(t), HeadThen(c, w, incl))
  {
    var suffixes := Suffixes(t);
    forall i | 0 <= i < |suffixes|
      ensures BelowP([c] + w, incl)(suffixes[i]) <==>
        StartsBelow(c)(suffixes[i]) || HeadThen(c, w, incl)(suffixes[i])
    {
      ConsLess(suffixes[i], c, w);
      ConsPrefix(suffixes[i], c, w);
    }
    CountIfDisjointUnion(suffixes, BelowP([c] + w, incl), StartsBelow(c), HeadThen(c, w, incl));
  }

  /** The suffixes of `reference + EOS` that start below a letter `c` other
      than `EOS`: the letters of the reference below `c`, and the
      terminator's own suffix. */
  lemma StartsBelowCount(reference: seq<char>, c: char)
    requires c != EOS
    ensures CountIf(Suffixes(reference + [EOS]), StartsBelow(c)) == Smaller(reference, c) + 1
  {
    var t := reference + [EOS];
    CountIfPointwise(Suffixes(t), StartsBelow(c), t, CharBelow(c));
    CountIfAppend(reference, [EOS], CharBelow(c));
    EosSmallest(c);
    assert CountIf([EOS], CharBelow(c)) == 1 by {
      assert [EOS][1..] == [];
    }
  }

  /** Suffix `k` starts with `c` exactly when suffix `k + 1` is preceded by
      `c`, so the two counts agree. */
  lemma HeadThenShift(t: seq<char>, c: char, w: seq<char>, incl: bool)
    requires Terminated(t) && c != EOS
    ensures CountIf(Suffixes(t), HeadThen(c, w, incl)) == CountIf(Suffixes(t), PrecededBelow(t, c, w, incl))
  {
    var n, suffixes := |t|, Suffixes(t);
    var p, q := HeadThen(c, w, incl), PrecededBelow(t, c, w, incl);
    var front, back := suffixes[..n - 1], suffixes[1..];
    assert suffixes == front + [suffixes[n - 1]];
    assert suffixes == [suffixes[0]] + back;
    CountIfAppend(front, [suffixes[n - 1]], p);
    CountIfAppend([suffixes[0]], back, q);
    assert suffixes[n - 1] == [EOS];
    assert !p(suffixes[n - 1]);
    assert CountIf([suffixes[n - 1]], p) == 0 by {
      assert [suffixes[n - 1]][1..] == [];
    }
    assert Prev(t, suffixes[0]) == EOS;
    assert CountIf([suffixes[0]], q) == 0 by {
      assert [suffixes[0]][1..] == [];
    }
    forall k | 0 <= k < n - 1
      ensures p(front[k]) == q(back[k])
    {
      assert front[k] == t[k..] && back[k] == t[k + 1..];
      assert t[k..][1..] == t[k + 1..];
    }
    CountIfPointwise(front, p, back, q);
  }

  /** Among the first `m` rows, the rows preceded by `c` are the rows whose
      letter in the transform is `c`. */
  lemma TopRowsPrecededBy(t: seq<char>, c: char, w: seq<char>, incl: bool)
    requires Terminated(t)
    ensures |GetBwt(t)| == |t| && |Sort(Suffixes(t))| == |t|
    ensures CountIf(Sort(Suffixes(t))[..Bound(t, w, incl)], PrecededBelow(t, c, w, incl))
         == multiset(GetBwt(t)[..Bound(t, w, incl)])[c]
  {
    var sorted, bwt, m := Sort(Suffixes(t)), GetBwt(t), Bound(t, w, incl);
    var q := PrecededBelow(t, c, w, incl);
    BwtIsPermutation(t);
    BoundRows(t, w, incl);
    forall j | 0 <= j < m
      ensures q(sorted[..m][j]) == IsChar(c)(bwt[..m][j])
    {
      BwtRowPrecedesSuffix(t, j);
    }
    CountIfPointwise(sorted[..m], q, bwt[..m], IsChar(c));
    CountIfEquals(bwt[..m], c, IsChar(c));
  }

  /** Counting the suffixes below the block of `w` that are preceded by `c`
      is counting `c` in the first `Bound(t, w, incl)` letters of the
      transform. */
  lemma PrecededBelowCount(t: seq<char>, c: char, w: seq<char>, incl: bool)
    requires Terminated(t)
    ensures |GetBwt(t)| == |t|
    ensures CountIf(Suffixes(t), PrecededBelow(t, c, w, incl)) == multiset(GetBwt(t)[..Bound(t, w, incl)])[c]
  {
    BoundRows(t, w, incl);
    CountIfTop(Suffixes(t), Sort(Suffixes(t)), PrecededBelow(t, c, w, incl), Bound(t, w, incl));
    TopRowsPrecededBy(t, c, w, incl);
  }

  /** The step of backward search: the block of `[c] + w` starts after the
      terminator and the letters below `c`, plus one row for each `c` in the
      transform above the block of `w`. */
  lemma SearchStep(reference: seq<char>, c: char, w: seq<char>, incl: bool)
    requires EOS !in reference && c in reference
    ensures |GetBwt(reference + [EOS])| == |reference| + 1
    ensures Bound(reference + [EOS], [c] + w, incl) ==
      Smaller(reference, c) + 1 + multiset(GetBwt(reference + [EOS])[..Bound(reference + [EOS], w, incl)])[c]
  {
    var t := reference + [EOS];
    assert t[..|t| - 1] == reference;
    assert Terminated(t);
    assert c != EOS;
    ConsSplit(t, c, w, incl);
    StartsBelowCount(reference, c);
    HeadThenShift(t, c, w, incl);
    PrecededBelowCount(t, c, w, incl);
  }

  // ---- use_occ

  /** `use_occ(occ, letter, i, length)`: `occ[letter][i]` with `i == -1`
      read as 0 and `i == length` as the list's last entry. */
  function UseOcc(occ: map<char, seq<nat>>, letter: char, i: int, length: int): (r: nat)
    requires letter in occ
    requires i == -1 || (i == length && |occ[letter]| > 0) || -|occ[letter]| <= i < |occ[letter]|
    ensures i == -1 ==> r == 0
    ensures i != -1 ==> r in occ[letter]
  {
    if i == -1 then 0
    else if i == length then occ[letter][|occ[letter]| - 1]
    else if i < 0 then occ[letter][|occ[letter]| + i]
    else occ[letter][i]
  }

  /** On the occurrence table of the transform, `use_occ` at `i` counts
      `letter` in the first `i + 1` letters, capped at the whole string. */
  lemma UseOccRank(bwt: seq<char>, occ: map<char, seq<nat>>, letter: char, i: int)
    requires IsOccTable(bwt, occ) && letter in occ && -1 <= i <= |bwt|
    ensures UseOcc(occ, letter, i, |bwt|) == multiset(bwt[..if i == |bwt| then i else i + 1])[letter]
  {
    if i == |bwt| {
      OccLast(bwt, occ, letter);
      assert bwt[..i] == bwt;
    }
  }

  // ---- bwt_interval

  /** The pair `(begin, end)` that `bwt_interval` returns: rows
      `begin .. end - 1` of the suffix array. */
  datatype Interval = Interval(begin: nat, end: nat)

  /** The rightmost position of `q` holding a letter that is not in
      `reference`. */
  function LastForeign(q: seq<char>, reference: seq<char>): (r: Option<nat>)
    ensures r.None? ==> forall i :: 0 <= i < |q| ==> q[i] in reference
    ensures r.Some? ==> r.value < |q| && q[r.value] !in reference
    ensures r.Some? ==> forall i :: r.value < i < |q| ==> q[i] in reference
  {
    if |q| == 0 then None
    else if q[|q| - 1] !in reference then Some(|q| - 1)
    else
      var r := LastForeign(q[..|q| - 1], reference);
      assert forall i :: 0 <= i < |q| - 1 ==> q[..|q| - 1][i] == q[i];
      r
  }

  lemma {:induction false} LastForeignUnique(q: seq<char>, reference: seq<char>, i: nat)
    requires i < |q| && q[i] !in reference && forall j :: i < j < |q| ==> q[j] in reference
    ensures LastForeign(q, reference) == Some(i)
    decreases |q|
  {
    if i < |q| - 1 {
      assert q[|q| - 1] in reference;
      LastForeignUnique(q[..|q| - 1], reference, i);
    }
  }

  /** What `bwt_interval(query, occ, count, len(reference) + 1)` returns
      (or raises) on the tables of `reference`: reading the query from its
      end, the first letter that the reference lacks raises `KeyError`,
      unless the part of the query after it already does not occur; a query
      that does not occur gives `(None, None)`; otherwise the block of rows
      whose suffixes start with the query. */
  ghost function IntervalSpec(reference: seq<char>, query: seq<char>): Result<Option<Interval>>
  {
    var t := reference + [EOS];
    match LastForeign(query, reference)
    case Some(i) =>
      if Occurs(t, query[i + 1..]) then Err(KeyError(query[i])) else Ok(None)
    case None =>
      if Occurs(t, query) then Ok(Some(Interval(Bound(t, query, false), Bound(t, query, true))))
      else Ok(None)
  }

  /** One pass of the loop in `bwt_interval`: from the block of `w` to the
      block of `[letter] + w`. */
  lemma IntervalStep(reference: seq<char>, occ: map<char, seq<nat>>, count: map<char, nat>,
                     letter: char, w: seq<char>, begin: int, end: int)
    requires EOS !in reference && letter in reference
    requires IsOccTable(GetBwt(reference + [EOS]), occ)
    requires IsCountTable(reference, count)
    requires begin == Bound(reference + [EOS], w, false) < end + 1 == Bound(reference + [EOS], w, true)
    ensures letter in count && letter in occ
    ensures |occ[letter]| == |reference| + 1
    ensures count[letter] + UseOcc(occ, letter, begin - 1, |reference| + 1) + 1 == Bound(reference + [EOS], [letter] + w, false)
    ensures count[letter] + UseOcc(occ, letter, end, |reference| + 1) + 1 == Bound(reference + [EOS], [letter] + w, true)
  {
    var t := reference + [EOS];
    var bwt := GetBwt(t);
    BwtIsPermutation(t);
    assert letter in multiset(bwt) by {
      assert letter in multiset(t);
    }
    UseOccRank(bwt, occ, letter, begin - 1);
    UseOccRank(bwt, occ, letter, end);
    SearchStep(reference, letter, w, false);
    SearchStep(reference, letter, w, true);
  }

  /** One pass of the loop of `bwt_interval`: the rows of the block of `w`
      become the rows of the block of `[letter] + w`, by `count` and
      `use_occ`. */
  method NarrowStep(occ: map<char, seq<nat>>, count: map<char, nat>, length: int, letter: char,
                    begin: int, end: int, ghost reference: seq<char>, ghost w: seq<char>)
    returns (begin': int, end': int)
    requires EOS !in reference && letter in count
    requires IsOccTable(GetBwt(reference + [EOS]), occ)
    requires IsCountTable(reference, count)
    requires length == |reference| + 1
    requires begin == Bound(reference + [EOS], w, false) < end + 1 == Bound(reference + [EOS], w, true)
    ensures begin' == Bound(reference + [EOS], [letter] + w, false)
    ensures end' + 1 == Bound(reference + [EOS], [letter] + w, true)
  {
    assert letter in reference;
    IntervalStep(reference, occ, count, letter, w, begin, end);
    begin' := count[letter] + UseOcc(occ, letter, begin - 1, length) + 1;
    end' := count[letter] + UseOcc(occ, letter, end, length);
  }

  /** `bwt_interval(query, occ, count, length)`, with the reversed query
      read from its last position down. `reference` (ghost) is the string
      the tables were built from. */
  method BwtInterval(query: seq<char>, occ: map<char, seq<nat>>, count: map<char, nat>, length: int,
                     ghost reference: seq<char>)
    returns (r: Result<Option<Interval>>)
    requires EOS !in reference
    requires IsOccTable(GetBwt(reference + [EOS]), occ)
    requires IsCountTable(reference, count)
    requires length == |reference| + 1
    ensures r == IntervalSpec(reference, query)
  {
    ghost var t := reference + [EOS];
    EmptyBlock(t);
    assert IsPrefix([], t[0..]);
    var begin: int := 0;
    var end: int := length - 1;
    var k := |query|;
    while k > 0
      invariant 0 <= k <= |query|
      invariant forall i :: k <= i < |query| ==> query[i] in reference
      invariant Occurs(t, query[k..])
      invariant begin == Bound(t, query[k..], false)
      invariant end + 1 == Bound(t, query[k..], true)
    {
      var letter := query[k - 1];
      if letter !in count {
        SpecKeyError(reference, count, query, k);
        return Err(KeyError(letter));
      }
      ghost var w := query[k..];
      OccursIffNonEmpty(t, w);
      begin, end := NarrowStep(occ, count, length, letter, begin, end, reference, w);
      k := k - 1;
      assert query[k..] == [letter] + w;
      OccursIffNonEmpty(t, query[k..]);
      if begin > end {
        SpecNoMatch(reference, query, k);
        return Ok(None);
      }
    }
    SpecFound(reference, query);
    return Ok(Some(Interval(begin, end + 1)));
  }

  /** The search stops with `KeyError` at the first foreign letter from the
      end when the rest of the query occurs. */
  lemma SpecKeyError(reference: seq<char>, count: map<char, nat>, query: seq<char>, k: nat)
    requires IsCountTable(reference, count)
    requires 0 < k <= |query| && query[k - 1] !in count
    requires forall j :: k <= j < |query| ==> query[j] in reference
    requires Occurs(reference + [EOS], query[k..])
    ensures IntervalSpec(reference, query) == Err(KeyError(query[k - 1]))
  {
    assert query[k - 1] !in reference;
    LastForeignUnique(query, reference, k - 1);
  }

  /** Once a part of the query after its last foreign letter does not
      occur, the search finds nothing. */
  lemma SpecNoMatch(reference: seq<char>, query: seq<char>, k: nat)
    requires k <= |query|
    requires forall j :: k <= j < |query| ==> query[j] in reference
    requires !Occurs(reference + [EOS], query[k..])
    ensures IntervalSpec(reference, query) == Ok(None)
  {
    var t := reference + [EOS];
    var lf := LastForeign(query, reference);
    if lf.Some? {
      if Occurs(t, query[lf.value + 1..]) {
        OccursSuffix(t, query, lf.value + 1, k);
      }
    } else if Occurs(t, query) {
      assert query[0..] == query;
      OccursSuffix(t, query, 0, k);
    }
  }

  /** A query made of letters of the reference that occurs gives its block. */
  lemma SpecFound(reference: seq<char>, query: seq<char>)
    requires forall j :: 0 <= j < |query| ==> query[j] in reference
    requires Occurs(reference + [EOS], query[0..])
    ensures IntervalSpec(reference, query) ==
      Ok(Some(Interval(Bound(reference + [EOS], query, false), Bound(reference + [EOS], query, true))))
  {
    assert query[0..] == query;
  }
}
