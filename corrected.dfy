/** The search as its documentation describes it: a query letter that the
    reference does not contain means that the query does not occur, so
    `bwt_interval` gives `(None, None)` and the matches are `[]`, as the
    second example of `bwt_exact_match` expects. The code as written
    raises `KeyError` instead (Matching.ExactMatchOfGef). */
module Corrected {
  import opened Wrappers
  import opened Lex
  import opened Sorting
  import opened Construction
  import opened BackwardSearch
  import opened Mutations
  import opened Matching

  /** A query whose search would raise has a letter the reference lacks,
      so it starts nowhere. */
  lemma RaisingNowhere(reference: seq<char>, w: seq<char>)
    requires IntervalSpec(reference, w).Err?
    ensures forall k :: !StartsAt(reference, w, k)
  {
    var i := LastForeign(w, reference).value;
    forall k
      ensures !StartsAt(reference, w, k)
    {
      ForeignNowhere(reference, w, i, k);
    }
  }

  /** `bwt_interval` with the lookup of a missing letter read as "no
      match": it never raises, and the rows it returns hold exactly the
      offsets where the query starts. */
  method BwtIntervalCorrected(query: seq<char>, occ: map<char, seq<nat>>, count: map<char, nat>, length: int,
                              ghost reference: seq<char>)
    returns (r: Option<Interval>)
    requires EOS !in reference
    requires IsOccTable(GetBwt(reference + [EOS]), occ)
    requires IsCountTable(reference, count)
    requires length == |reference| + 1
    ensures r.Some? ==> r.value.begin <= r.value.end <= |reference| + 1
    ensures r.Some? ==> forall k :: k in GetSa(reference + [EOS])[r.value.begin..r.value.end] <==> StartsAt(reference, query, k)
    ensures r.None? ==> forall k :: !StartsAt(reference, query, k)
  {
    var raw := BwtInterval(query, occ, count, length, reference);
    if raw.Err? {
      RaisingNowhere(reference, query);
      return None;
    }
    IntervalOffsets(reference, query, raw.value);
    return raw.value;
  }

  /** One candidate: the suffix array entries of its interval, or none. */
  method SearchOneCorrected(w: seq<char>, data: BwtData, ghost reference: seq<char>) returns (found: seq<int>)
    requires EOS !in reference && IsIndexOf(reference, data)
    ensures forall k :: k in found <==> StartsAt(reference, w, k)
  {
    assert |data.bwt| == |reference| + 1 by {
      BwtIsPermutation(reference + [EOS]);
    }
    var interval := BwtIntervalCorrected(w, data.occ, data.count, |data.bwt|, reference);
    found := [];
    if interval.Some? {
      assert |data.sa| == |reference| + 1 by {
        SuffixArrayRows(reference + [EOS]);
      }
      found := data.sa[interval.value.begin..interval.value.end];
    }
  }

  /** The search loop, which now always runs to the end. */
  method SearchAllCorrected(candidates: seq<seq<char>>, data: BwtData, ghost reference: seq<char>)
    returns (results: seq<int>)
    requires EOS !in reference && IsIndexOf(reference, data)
    ensures forall k :: k in results <==> exists j :: 0 <= j < |candidates| && StartsAt(reference, candidates[j], k)
  {
    results := [];
    for i := 0 to |candidates|
      invariant forall k :: k in results <==> exists j :: 0 <= j < i && StartsAt(reference, candidates[j], k)
    {
      var found := SearchOneCorrected(candidates[i], data, reference);
      ResultsStep(reference, candidates, i, results, found);
      results := results + found;
    }
  }

  /** `bwt_inexact_match` on the corrected search: only the assertion on
      the reference can fail, and the result is exactly the sorted offsets
      where some mutation of the query starts. */
  method BwtInexactMatchCorrected(query: seq<char>, reference: seq<char>, mismatches: int)
    returns (r: Result<seq<int>>)
    ensures r.Err? <==> EOS in reference
    ensures r.Err? ==> r.error == AssertionError
    ensures r.Ok? ==> Increasing(r.value)
    ensures r.Ok? ==> forall k :: k in r.value <==> MatchAt(reference, query, mismatches, k)
  {
    var data :- GetBwtData(reference);
    var candidates, _ := Mutations.Mutations(query, mismatches, data.alphabet, {});
    var results := SearchAllCorrected(candidates, data, reference);
    MatchesFromCandidates(reference, query, mismatches, candidates, results);
    return Ok(SortedSet(results));
  }

  /** `bwt_exact_match` on the corrected search. */
  method BwtExactMatchCorrected(query: seq<char>, reference: seq<char>) returns (r: Result<seq<int>>)
    ensures r.Err? <==> EOS in reference
    ensures r.Err? ==> r.error == AssertionError
    ensures r.Ok? ==> Increasing(r.value)
    ensures r.Ok? ==> forall k :: k in r.value <==> StartsAt(reference, query, k)
  {
    r := BwtInexactMatchCorrected(query, reference, 0);
    forall w
      ensures Reach(query, 0, Alphabet(reference), w) <==> w == query
    {
      ReachZero(query, Alphabet(reference), w);
    }
    if r.Ok? {
      forall k
        ensures MatchAt(reference, query, 0, k) <==> StartsAt(reference, query, k)
      {
      }
    }
  }

  /** A list without members is empty. */
  lemma NoMembersEmpty(s: seq<int>)
    requires forall k :: k !in s
    ensures s == []
  {
    var x := if |s| > 0 then s[0] else 0;
    assert |s| > 0 ==> x in s;
  }

  /** The second example of `bwt_exact_match`: `gef` does not occur in
      `abcabcabc`, and the corrected search says so. */
  method ExactMatchOfGefCorrected() returns (r: Result<seq<int>>)
    ensures r == Ok([])
  {
    r := BwtExactMatchCorrected("gef", "abcabcabc");
    assert EOS !in "abcabcabc";
    assert 'f' !in "abcabcabc";
    forall k
      ensures !StartsAt("abcabcabc", "gef", k)
    {
      ForeignNowhere("abcabcabc", "gef", 2, k);
    }
    NoMembersEmpty(r.value);
  }
}
