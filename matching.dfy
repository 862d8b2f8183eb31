/** The public searches of bwt.py: `get_bwt_data`, `bwt_inexact_match` and
    `bwt_exact_match`, each stated against a naive reference definition:
    the offsets where the query, or one of its mutations, starts in the
    reference. */
module Matching {
  import opened Wrappers
  import opened Lex
  import opened Counting
  import opened Sorting
  import opened Construction
  import opened BackwardSearch
  import opened Mutations

  /** The tuple `(alphabet, bwt, occ, count, sa)` of `get_bwt_data`. */
  datatype BwtData = BwtData(alphabet: set<char>, bwt: seq<char>, occ: map<char, seq<nat>>,
                             count: map<char, nat>, sa: seq<nat>)

  /** `set(reference)` */
  function Alphabet(reference: seq<char>): set<char>
  {
    set c | c in reference
  }

  /** `data` is the index of `reference`, built over `reference + EOS`. */
  ghost predicate IsIndexOf(reference: seq<char>, data: BwtData)
  {
    && data.alphabet == Alphabet(reference)
    && data.bwt == GetBwt(reference + [EOS])
    && IsOccTable(data.bwt, data.occ)
    && IsCountTable(reference, data.count)
    && data.sa == GetSa(reference + [EOS])
  }

  /** `get_bwt_data(reference)`: the assertion rejects a reference that
      already holds `EOS`. */
  method GetBwtData(reference: seq<char>) returns (r: Result<BwtData>)
    ensures r.Err? <==> EOS in reference
    ensures r.Err? ==> r.error == AssertionError
    ensures r.Ok? ==> IsIndexOf(reference, r.value)
  {
    var alphabet := Alphabet(reference);
    if EOS in reference {
      return Err(AssertionError);
    }
    var terminated := reference + [EOS];
    var bwt := GetBwt(terminated);
    var occ := GetOcc(bwt);
    assert terminated[..|terminated| - 1] == reference;
    var count := GetCount(terminated[..|terminated| - 1]);
    var sa := GetSa(terminated);
    return Ok(BwtData(alphabet, bwt, occ, count, sa));
  }

  // ---- the reference definition

  /** Offset `k` of `reference` (up to and including its length) is a
      match: some string within `mismatches` of the query, over the
      reference's alphabet, starts there. */
  ghost predicate MatchAt(reference: seq<char>, query: seq<char>, mismatches: int, k: int)
  {
    && 0 <= k <= |reference|
    && exists w :: Reach(query, mismatches, Alphabet(reference), w) && IsPrefix(w, reference[k..])
  }

  /** The offsets that one mutation `w` contributes. */
  ghost predicate StartsAt(reference: seq<char>, w: seq<char>, k: int)
  {
    0 <= k <= |reference| && IsPrefix(w, reference[k..])
  }

  /** A string with a letter the reference lacks starts nowhere in it. */
  lemma ForeignNowhere(reference: seq<char>, w: seq<char>, i: nat, k: int)
    requires i < |w| && w[i] !in reference
    ensures !StartsAt(reference, w, k)
  {
  }

  /** Without `EOS` in `w`, starting at `k` in `reference + EOS` is starting
      at `k` in `reference`. */
  lemma TerminatedPrefix(reference: seq<char>, w: seq<char>, k: nat)
    requires EOS !in w && k < |reference| + 1
    ensures IsPrefix(w, (reference + [EOS])[k..]) <==> StartsAt(reference, w, k)
  {
    var t := reference + [EOS];
    if IsPrefix(w, t[k..]) && |w| > 0 {
      assert t[k..][|w| - 1] == w[|w| - 1];
      assert |w| < |t| - k;
      assert reference[k..][..|w|] == t[k..][..|w|];
    }
    if StartsAt(reference, w, k) {
      assert reference[k..][..|w|] == t[k..][..|w|];
    }
  }

  /** The suffix array entries in the block of `w` are the offsets where
      `w` starts in the reference. */
  lemma BlockStarts(reference: seq<char>, w: seq<char>)
    requires EOS !in w
    ensures |GetSa(reference + [EOS])| == |reference| + 1
    ensures Bound(reference + [EOS], w, false) <= Bound(reference + [EOS], w, true) <= |reference| + 1
    ensures forall k ::
      k in GetSa(reference + [EOS])[Bound(reference + [EOS], w, false)..Bound(reference + [EOS], w, true)]
      <==> StartsAt(reference, w, k)
  {
    var t := reference + [EOS];
    BlockOffsets(t, w);
    forall k | 0 <= k < |t|
      ensures IsPrefix(w, t[k..]) <==> StartsAt(reference, w, k)
    {
      TerminatedPrefix(reference, w, k);
    }
  }

  /** A string without `EOS` that does not occur in `reference + EOS`
      starts nowhere in the reference. */
  lemma AbsentNowhere(reference: seq<char>, w: seq<char>)
    requires EOS !in w && !Occurs(reference + [EOS], w)
    ensures forall k :: !StartsAt(reference, w, k)
  {
    forall k | StartsAt(reference, w, k)
      ensures false
    {
      TerminatedPrefix(reference, w, k);
    }
  }

  /** The suffix array entries in the interval that `bwt_interval` returns
      for `w` are the offsets where `w` starts in the reference. */
  lemma IntervalOffsets(reference: seq<char>, w: seq<char>, iv: Option<Interval>)
    requires EOS !in reference && IntervalSpec(reference, w) == Ok(iv)
    ensures iv.Some? ==> iv.value.begin <= iv.value.end <= |reference| + 1
    ensures iv.Some? ==> forall k :: k in GetSa(reference + [EOS])[iv.value.begin..iv.value.end] <==> StartsAt(reference, w, k)
    ensures iv.None? ==> forall k :: !StartsAt(reference, w, k)
  {
    match LastForeign(w, reference)
    case Some(i) =>
      forall k
        ensures !StartsAt(reference, w, k)
      {
        ForeignNowhere(reference, w, i, k);
      }
    case None =>
      assert EOS !in w by {
        forall i | 0 <= i < |w|
          ensures w[i] != EOS
        {
          assert w[i] in reference;
        }
      }
      if iv.Some? {
        BlockStarts(reference, w);
      } else {
        AbsentNowhere(reference, w);
      }
  }

  /** A mutation whose letters all occur in the reference never raises. */
  lemma KnownLettersNeverRaise(reference: seq<char>, query: seq<char>, mismatches: int, w: seq<char>)
    requires forall i :: 0 <= i < |query| ==> query[i] in reference
    requires Reach(query, mismatches, Alphabet(reference), w)
    ensures IntervalSpec(reference, w).Ok?
  {
    forall i | 0 <= i < |w|
      ensures w[i] in reference
    {
      if w[i] != query[i] {
        assert w[i] in Alphabet(reference);
      }
    }
  }

  // ---- bwt_inexact_match

  /** `bwt_inexact_match(query, reference, mismatches)`. The mutations are
      produced in full before the search loop; a `KeyError` from
      `bwt_interval` ends the search. */
  method BwtInexactMatch(query: seq<char>, reference: seq<char>, mismatches: int)
    returns (r: Result<seq<int>>)
    ensures r == Err(AssertionError) <==> EOS in reference
    ensures r.Ok? <==>
      EOS !in reference && forall w :: Reach(query, mismatches, Alphabet(reference), w) ==> IntervalSpec(reference, w).Ok?
    ensures r.Err? && EOS !in reference ==>
      exists w :: Reach(query, mismatches, Alphabet(reference), w) && IntervalSpec(reference, w) == Err(r.error)
    ensures r.Ok? ==> Increasing(r.value)
    ensures r.Ok? ==> forall k :: k in r.value <==> MatchAt(reference, query, mismatches, k)
  {
    var data :- GetBwtData(reference);
    var candidates, _ := Mutations.Mutations(query, mismatches, data.alphabet, {});
    var results :- SearchAll(candidates, data, reference);
    forall w | Reach(query, mismatches, Alphabet(reference), w)
      ensures IntervalSpec(reference, w).Ok?
    {
      assert w in candidates;
    }
    MatchesFromCandidates(reference, query, mismatches, candidates, results);
    return Ok(SortedSet(results));
  }

  /** The loop of `bwt_inexact_match`: search every candidate, gathering
      the suffix array entries of each interval found. */
  method SearchAll(candidates: seq<seq<char>>, data: BwtData, ghost reference: seq<char>)
    returns (r: Result<seq<int>>)
    requires EOS !in reference && IsIndexOf(reference, data)
    ensures r.Ok? <==> forall j :: 0 <= j < |candidates| ==> IntervalSpec(reference, candidates[j]).Ok?
    ensures r.Err? ==> exists j :: 0 <= j < |candidates| && IntervalSpec(reference, candidates[j]) == Err(r.error)
    ensures r.Ok? ==> forall k :: k in r.value <==> exists j :: 0 <= j < |candidates| && StartsAt(reference, candidates[j], k)
  {
    var results: seq<int> := [];
    for i := 0 to |candidates|
      invariant forall j :: 0 <= j < i ==> IntervalSpec(reference, candidates[j]).Ok?
      invariant forall k :: k in results <==> exists j :: 0 <= j < i && StartsAt(reference, candidates[j], k)
    {
      var found := SearchOne(candidates[i], data, reference);
      if found.Err? {
        return Err(found.error);
      }
      OkStep(reference, candidates, i);
      ResultsStep(reference, candidates, i, results, found.value);
      results := results + found.value;
    }
    return Ok(results);
  }

  /** One candidate of the loop: `bwt_interval`, then the suffix array
      entries of the interval, or none. */
  method SearchOne(w: seq<char>, data: BwtData, ghost reference: seq<char>) returns (r: Result<seq<int>>)
    requires EOS !in reference && IsIndexOf(reference, data)
    ensures r.Ok? <==> IntervalSpec(reference, w).Ok?
    ensures r.Err? ==> IntervalSpec(reference, w) == Err(r.error)
    ensures r.Ok? ==> forall k :: k in r.value <==> StartsAt(reference, w, k)
  {
    assert |data.bwt| == |reference| + 1 by {
      BwtIsPermutation(reference + [EOS]);
    }
    var interval := BwtInterval(w, data.occ, data.count, |data.bwt|, reference);
    if interval.Err? {
      return Err(interval.error);
    }
    var found: seq<int> := [];
    if interval.value.Some? {
      assert interval.value.value.begin <= interval.value.value.end <= |data.sa| by {
        SuffixArrayRows(reference + [EOS]);
        IntervalOffsets(reference, w, interval.value);
      }
      found := data.sa[interval.value.value.begin..interval.value.value.end];
    }
    assert forall k :: k in found <==> StartsAt(reference, w, k) by {
      IntervalOffsets(reference, w, interval.value);
    }
    return Ok(found);
  }

  /** The search loop adds the offsets of one more candidate. */
  lemma ResultsStep(reference: seq<char>, candidates: seq<seq<char>>, i: nat, results: seq<int>, found: seq<int>)
    requires i < |candidates|
    requires forall k :: k in results <==> exists j :: 0 <= j < i && StartsAt(reference, candidates[j], k)
    requires forall k :: k in found <==> StartsAt(reference, candidates[i], k)
    ensures forall k :: k in results + found <==> exists j :: 0 <= j < i + 1 && StartsAt(reference, candidates[j], k)
  {
    forall k
      ensures k in results + found <==> exists j :: 0 <= j < i + 1 && StartsAt(reference, candidates[j], k)
    {
      if exists j :: 0 <= j < i + 1 && StartsAt(reference, candidates[j], k) {
        var j :| 0 <= j < i + 1 && StartsAt(reference, candidates[j], k);
        if j < i {
          assert k in results;
        }
      }
    }
  }

  /** One more candidate searched without raising. */
  lemma OkStep(reference: seq<char>, candidates: seq<seq<char>>, i: nat)
    requires i < |candidates|
    requires forall j :: 0 <= j < i ==> IntervalSpec(reference, candidates[j]).Ok?
    requires IntervalSpec(reference, candidates[i]).Ok?
    ensures forall j :: 0 <= j < i + 1 ==> IntervalSpec(reference, candidates[j]).Ok?
  {
  }

  lemma MatchesFromCandidates(reference: seq<char>, query: seq<char>, mismatches: int,
                              candidates: seq<seq<char>>, results: seq<int>)
    requires forall w :: w in candidates <==> Reach(query, mismatches, Alphabet(reference), w)
    requires forall k :: k in results <==> exists j :: 0 <= j < |candidates| && StartsAt(reference, candidates[j], k)
    ensures forall k :: k in results <==> MatchAt(reference, query, mismatches, k)
  {
    forall k
      ensures k in results <==> MatchAt(reference, query, mismatches, k)
    {
      if k in results {
        var j :| 0 <= j < |candidates| && StartsAt(reference, candidates[j], k);
        assert candidates[j] in candidates;
      }
      if MatchAt(reference, query, mismatches, k) {
        var w :| Reach(query, mismatches, Alphabet(reference), w) && IsPrefix(w, reference[k..]);
        var j :| 0 <= j < |candidates| && candidates[j] == w;
        assert StartsAt(reference, candidates[j], k);
      }
    }
  }

  /** For a non-empty query, the matches are exactly the naive scan's: the
      in-bounds windows of the reference within `mismatches` substitutions
      of the query. */
  lemma {:induction false} MatchAtWindow(reference: seq<char>, query: seq<char>, mismatches: int, k: int)
    requires |query| > 0
    ensures MatchAt(reference, query, mismatches, k) <==>
      0 <= k && k + |query| <= |reference| && Hamming(query, reference[k..k + |query|]) <= mismatches
  {
    if MatchAt(reference, query, mismatches, k) {
      var w :| Reach(query, mismatches, Alphabet(reference), w) && IsPrefix(w, reference[k..]);
      assert reference[k..k + |query|] == reference[k..][..|w|];
    }
    if 0 <= k && k + |query| <= |reference| && Hamming(query, reference[k..k + |query|]) <= mismatches {
      var w := reference[k..k + |query|];
      forall i | 0 <= i < |query| && w[i] != query[i]
        ensures w[i] in Alphabet(reference)
      {
        assert w[i] == reference[k + i];
      }
      assert w[0] == reference[k];
      assert Reach(query, mismatches, Alphabet(reference), w);
      assert IsPrefix(w, reference[k..]);
    }
  }

  /** `bwt_inexact_match` never raises `KeyError` for a query spelled with
      the reference's letters. */
  lemma InexactMatchOfKnownLetters(reference: seq<char>, query: seq<char>, mismatches: int)
    requires forall i :: 0 <= i < |query| ==> query[i] in reference
    ensures forall w :: Reach(query, mismatches, Alphabet(reference), w) ==> IntervalSpec(reference, w).Ok?
  {
    forall w | Reach(query, mismatches, Alphabet(reference), w)
      ensures IntervalSpec(reference, w).Ok?
    {
      KnownLettersNeverRaise(reference, query, mismatches, w);
    }
  }

  // ---- bwt_exact_match

  /** `bwt_exact_match(query, reference)`: with no mismatches, the only
      candidate is the query itself. */
  method BwtExactMatch(query: seq<char>, reference: seq<char>) returns (r: Result<seq<int>>)
    ensures r == Err(AssertionError) <==> EOS in reference
    ensures EOS !in reference && r.Err? ==> IntervalSpec(reference, query) == Err(r.error)
    ensures EOS !in reference ==> (r.Ok? <==> IntervalSpec(reference, query).Ok?)
    ensures r.Ok? ==> Increasing(r.value)
    ensures r.Ok? ==> forall k :: k in r.value <==> StartsAt(reference, query, k)
  {
    r := BwtInexactMatch(query, reference, 0);
    forall w
      ensures Reach(query, 0, Alphabet(reference), w) <==> w == query
    {
      ReachZero(query, Alphabet(reference), w);
    }
    assert Reach(query, 0, Alphabet(reference), query);
    if r.Ok? {
      forall k
        ensures MatchAt(reference, query, 0, k) <==> StartsAt(reference, query, k)
      {
      }
    }
  }

  // ---- the second example of `bwt_exact_match`, as written

  /** Searching `gef` in `abcabcabc`: `f`, read first, is not a letter of
      the reference, and the empty rest of the query occurs, so
      `bwt_interval` raises `KeyError('f')`. */
  lemma GefRaises()
    ensures IntervalSpec("abcabcabc", "gef") == Err(KeyError('f'))
  {
    var reference, query := "abcabcabc", "gef";
    assert 'f' !in reference;
    assert LastForeign(query, reference) == Some(2);
    assert IsPrefix(query[3..], (reference + [EOS])[0..]);
  }

  /** `bwt_exact_match('gef', 'abcabcabc')` raises `KeyError('f')` instead
      of returning `[]`. */
  method ExactMatchOfGef() returns (r: Result<seq<int>>)
    ensures r == Err(KeyError('f'))
  {
    r := BwtExactMatch("gef", "abcabcabc");
    GefRaises();
    assert EOS !in "abcabcabc";
  }
}
