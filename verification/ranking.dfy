/** The ranking half of a vector search: given one score per stored entry, pick
    the indices of the best `count` entries, best first. The scores themselves
    (cosine similarity) are computed elsewhere and are opaque here. */
module Ranking {

  /** No index occurs twice. */
  ghost predicate Distinct(s: seq<nat>) {
    forall i, j :: 0 <= i < j < |s| ==> s[i] != s[j]
  }

  /** `picked` is a prefix of some ordering of all indices of `scores` by
      non-increasing score: its indices are distinct and in range, their scores
      do not increase, and no index left out scores higher than one picked.
      Nothing is said about the order among equal scores. */
  ghost predicate IsTopRanking(scores: seq<real>, picked: seq<nat>) {
    && Distinct(picked)
    && (forall i :: 0 <= i < |picked| ==> picked[i] < |scores|)
    && (forall i, j :: 0 <= i < j < |picked| ==> scores[picked[j]] <= scores[picked[i]])
    && (forall i, m :: 0 <= i < |picked| && 0 <= m < |scores| && m !in picked ==>
          scores[m] <= scores[picked[i]])
  }

  /** How many entries the slice `ranked[:k]` keeps of a list of length n,
      including the case of a negative k, which drops entries from the end. */
  function SliceCount(n: nat, k: int): (c: nat)
    ensures c <= n
  {
    if k >= 0 then (if k < n then k else n)
    else if n + k > 0 then n + k else 0
  }

  /** The position in `cands` of a candidate with the highest score (the first
      such position on ties). */
  method ArgMax(scores: seq<real>, cands: seq<nat>) returns (p: nat)
    requires |cands| > 0
    requires forall j :: 0 <= j < |cands| ==> cands[j] < |scores|
    ensures p < |cands|
    ensures forall j :: 0 <= j < |cands| ==> scores[cands[j]] <= scores[cands[p]]
    ensures forall j :: 0 <= j < p ==> scores[cands[j]] < scores[cands[p]]
  {
    p := 0;
    var j := 1;
    while j < |cands|
      invariant p < j <= |cands|
      invariant forall q :: 0 <= q < j ==> scores[cands[q]] <= scores[cands[p]]
      invariant forall q :: 0 <= q < p ==> scores[cands[q]] < scores[cands[p]]
    {
      if scores[cands[j]] > scores[cands[p]] {
        p := j;
      }
      j := j + 1;
    }
  }

  /** Removing the element at position p of a sequence without repetitions
      removes exactly that value. */
  lemma RemoveAt(s: seq<nat>, p: nat)
    requires p < |s| && Distinct(s)
    ensures var t := s[..p] + s[p + 1..];
      && |t| == |s| - 1
      && Distinct(t)
      && (forall x :: x in t <==> x in s && x != s[p])
  {
    var t := s[..p] + s[p + 1..];
    assert forall q :: 0 <= q < p ==> t[q] == s[q];
    assert forall q :: p <= q < |t| ==> t[q] == s[q + 1];
    forall x
      ensures x in t <==> x in s && x != s[p]
    {
      if x in t {
        var q :| 0 <= q < |t| && t[q] == x;
        if q < p { assert s[q] == x; } else { assert s[q + 1] == x; }
      }
      if x in s && x != s[p] {
        var q :| 0 <= q < |s| && s[q] == x;
        if q < p { assert t[q] == x; } else { assert t[q - 1] == x; }
      }
    }
  }

  /** Selects the top `count` indices by repeatedly moving the best remaining
      index to the end of the ranking. */
  method TopIndices(scores: seq<real>, count: nat) returns (picked: seq<nat>)
    requires count <= |scores|
    ensures |picked| == count
    ensures IsTopRanking(scores, picked)
  {
    var n := |scores|;
    picked := [];
    var remaining: seq<nat> := seq(n, i requires 0 <= i => i);
    forall x: nat | x < n
      ensures x in remaining
    {
      assert remaining[x] == x;
    }
    while |picked| < count
      invariant |picked| <= count && |picked| + |remaining| == n
      invariant Distinct(picked) && Distinct(remaining)
      invariant forall x :: x in picked ==> x !in remaining
      invariant forall i :: 0 <= i < |picked| ==> picked[i] < n
      invariant forall j :: 0 <= j < |remaining| ==> remaining[j] < n
      invariant forall x: nat :: x < n ==> x in picked || x in remaining
      invariant forall i, j :: 0 <= i < j < |picked| ==> scores[picked[j]] <= scores[picked[i]]
      invariant forall i, x :: 0 <= i < |picked| && x in remaining ==> scores[x] <= scores[picked[i]]
      decreases count - |picked|
    {
      var p := ArgMax(scores, remaining);
      var best := remaining[p];
      RemoveAt(remaining, p);
      assert forall x :: x in remaining ==> scores[x] <= scores[best];
      assert best !in picked;
      picked := picked + [best];
      remaining := remaining[..p] + remaining[p + 1..];
    }
  }
}
