/**
 * `two_sum`: one left-to-right pass over `nums` with a map from a value to
 * the latest index holding it. An index whose complement `target - nums[i]`
 * is in the map is paired with that index and is not added to the map;
 * any other index is recorded under its value, overwriting an earlier one.
 */
module TwoSums {

  /**
   * Which of the first n indices are matched: index i is matched when some
   * earlier index that is not itself matched holds the complement
   * `target - nums[i]`.
   */
  ghost function MatchedFlags(nums: seq<int>, target: int, n: int): (f: seq<bool>)
    requires 0 <= n <= |nums|
    ensures |f| == n
    decreases n
  {
    if n == 0 then []
    else
      var f := MatchedFlags(nums, target, n - 1);
      f + [exists j | 0 <= j < n - 1 :: !f[j] && nums[j] == target - nums[n - 1]]
  }

  /** Whether index i is matched: exactly the indices the pass pairs up. */
  ghost predicate Matched(nums: seq<int>, target: int, i: int)
  {
    0 <= i < |nums| && MatchedFlags(nums, target, |nums|)[i]
  }

  /** Flags of a longer prefix agree with those of a shorter one. */
  lemma {:induction false} MatchedFlagsPrefix(nums: seq<int>, target: int, m: int, n: int)
    requires 0 <= m <= n <= |nums|
    ensures MatchedFlags(nums, target, n)[..m] == MatchedFlags(nums, target, m)
    decreases n - m
  {
    if m < n {
      MatchedFlagsPrefix(nums, target, m, n - 1);
      assert MatchedFlags(nums, target, n)[..n - 1] == MatchedFlags(nums, target, n - 1);
      assert MatchedFlags(nums, target, n)[..m] == MatchedFlags(nums, target, n - 1)[..m];
    }
  }

  /** The defining property of a matched index, for the whole input. */
  lemma MatchedIff(nums: seq<int>, target: int, i: int)
    requires 0 <= i < |nums|
    ensures Matched(nums, target, i) <==>
      exists j | 0 <= j < i :: !Matched(nums, target, j) && nums[j] == target - nums[i]
  {
    var all := MatchedFlags(nums, target, |nums|);
    var upto := MatchedFlags(nums, target, i);
    MatchedFlagsPrefix(nums, target, i + 1, |nums|);
    MatchedFlagsPrefix(nums, target, i, |nums|);
    assert all[i] == MatchedFlags(nums, target, i + 1)[i];
    assert forall j | 0 <= j < i :: all[j] == upto[j];
  }

  /** The second components of the pairs, in order. */
  function Seconds(pairs: seq<(nat, nat)>): seq<nat>
  {
    seq(|pairs|, k requires 0 <= k < |pairs| => pairs[k].1)
  }

  /**
   * After the first i indices, `latest` maps exactly the values of the
   * unmatched indices, each to the latest unmatched index holding it.
   */
  ghost predicate LatestUnmatched(nums: seq<int>, target: int, i: int, latest: map<int, nat>)
  {
    && 0 <= i <= |nums|
    && (forall j | 0 <= j < i && !Matched(nums, target, j) :: nums[j] in latest)
    && (forall x | x in latest :: latest[x] < i && nums[latest[x]] == x && !Matched(nums, target, latest[x]))
    && (forall x | x in latest :: forall m | latest[x] < m < i :: Matched(nums, target, m) || nums[m] != x)
  }

  /** With the map kept so far, index i is matched exactly when its complement is in the map. */
  lemma MatchedByMap(nums: seq<int>, target: int, i: int, latest: map<int, nat>)
    requires i < |nums| && LatestUnmatched(nums, target, i, latest)
    ensures Matched(nums, target, i) <==> target - nums[i] in latest
  {
    var diff := target - nums[i];
    MatchedIff(nums, target, i);
    if diff in latest {
      var j := latest[diff];
      assert !Matched(nums, target, j) && nums[j] == diff;
    }
  }

  /** A matched index leaves the map as it is. */
  lemma MatchedKeepsMap(nums: seq<int>, target: int, i: int, latest: map<int, nat>)
    requires i < |nums| && LatestUnmatched(nums, target, i, latest)
    requires Matched(nums, target, i)
    ensures LatestUnmatched(nums, target, i + 1, latest)
  {
  }

  /** An unmatched index becomes the latest one holding its value. */
  lemma UnmatchedEntersMap(nums: seq<int>, target: int, i: int, latest: map<int, nat>)
    requires i < |nums| && LatestUnmatched(nums, target, i, latest)
    requires !Matched(nums, target, i)
    ensures LatestUnmatched(nums, target, i + 1, latest[nums[i] := i])
  {
  }

  /**
   * The pairs reported for the first i indices: each pairs a matched index
   * with the latest earlier unmatched index holding its complement, in
   * increasing order of the matched index, and every matched index is there.
   */
  ghost predicate ReportedUpTo(nums: seq<int>, target: int, i: int, r: seq<(nat, nat)>)
  {
    0 <= i <= |nums| && PairsUpTo(nums, target, i, r) && CoversMatched(nums, target, i, r)
  }

  /** Each reported pair is a matched index with its latest unmatched partner, in order. */
  ghost predicate PairsUpTo(nums: seq<int>, target: int, i: int, r: seq<(nat, nat)>)
  {
    && (forall k | 0 <= k < |r| :: r[k].0 < r[k].1 < i <= |nums| && nums[r[k].0] + nums[r[k].1] == target)
    && (forall k, l | 0 <= k < l < |r| :: r[k].1 < r[l].1)
    && (forall k | 0 <= k < |r| :: !Matched(nums, target, r[k].0))
    && (forall k | 0 <= k < |r| :: forall m | r[k].0 < m < r[k].1 :: Matched(nums, target, m) || nums[m] != nums[r[k].0])
  }

  /** Every matched index below i is the second component of some pair, and only those. */
  ghost predicate CoversMatched(nums: seq<int>, target: int, i: int, r: seq<(nat, nat)>)
  {
    forall j | 0 <= j < i :: Matched(nums, target, j) <==> j in Seconds(r)
  }

  /** Appending a pair adds its second component. */
  lemma SecondsAppend(r: seq<(nat, nat)>, p: (nat, nat))
    ensures Seconds(r + [p]) == Seconds(r) + [p.1]
  {
  }

  /** Reporting a matched index with the map's entry for its complement extends the report. */
  lemma MatchedExtendsReport(nums: seq<int>, target: int, i: int, latest: map<int, nat>, r: seq<(nat, nat)>, p: (nat, nat))
    requires i < |nums| && LatestUnmatched(nums, target, i, latest) && ReportedUpTo(nums, target, i, r)
    requires target - nums[i] in latest && Matched(nums, target, i)
    requires p == (latest[target - nums[i]], i)
    ensures ReportedUpTo(nums, target, i + 1, r + [p])
  {
    MatchedExtendsPairs(nums, target, i, latest, r, p);
    SecondsAppend(r, p);
  }

  /** The new pair is valid and comes after the others. */
  lemma MatchedExtendsPairs(nums: seq<int>, target: int, i: int, latest: map<int, nat>, r: seq<(nat, nat)>, p: (nat, nat))
    requires i < |nums| && LatestUnmatched(nums, target, i, latest) && PairsUpTo(nums, target, i, r)
    requires target - nums[i] in latest
    requires p == (latest[target - nums[i]], i)
    ensures PairsUpTo(nums, target, i + 1, r + [p])
  {
  }

  /** An unmatched index adds nothing to the report. */
  lemma UnmatchedKeepsReport(nums: seq<int>, target: int, i: int, r: seq<(nat, nat)>)
    requires i < |nums| && ReportedUpTo(nums, target, i, r) && !Matched(nums, target, i)
    ensures ReportedUpTo(nums, target, i + 1, r)
  {
  }

  /**
   * `two_sum`: the pairs (j, i) the pass reports, in order of i: every i
   * that is matched, with j the latest earlier unmatched index holding the
   * complement of `nums[i]`.
   */
  method TwoSum(nums: seq<int>, target: int) returns (r: seq<(nat, nat)>)
    ensures |r| <= |nums|
    ensures forall k | 0 <= k < |r| :: r[k].0 < r[k].1 < |nums| && nums[r[k].0] + nums[r[k].1] == target
    ensures forall k, l | 0 <= k < l < |r| :: r[k].1 < r[l].1
    ensures forall i | 0 <= i < |nums| :: Matched(nums, target, i) <==> i in Seconds(r)
    ensures forall k | 0 <= k < |r| :: !Matched(nums, target, r[k].0)
    ensures forall k | 0 <= k < |r| :: forall m | r[k].0 < m < r[k].1 :: Matched(nums, target, m) || nums[m] != nums[r[k].0]
  {
    r := [];
    var latest: map<int, nat> := map[];
    for i := 0 to |nums|
      invariant |r| <= i
      invariant LatestUnmatched(nums, target, i, latest)
      invariant ReportedUpTo(nums, target, i, r)
    {
      var diff := target - nums[i];
      MatchedByMap(nums, target, i, latest);
      if diff in latest {
        var pair: (nat, nat) := (latest[diff], i);
        MatchedExtendsReport(nums, target, i, latest, r, pair);
        MatchedKeepsMap(nums, target, i, latest);
        r := r + [pair];
      } else {
        UnmatchedKeepsReport(nums, target, i, r);
        UnmatchedEntersMap(nums, target, i, latest);
        latest := latest[nums[i] := i];
      }
    }
  }
}
