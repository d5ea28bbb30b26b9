/**
 * The unit test of `two_sum`, as methods whose postconditions are the
 * expected pair lists.
 */
module TwoSumScenarios {
  import opened TwoSums

  lemma FlagsForNine()
    ensures MatchedFlags([2, 7, 11, 15], 9, 4) == [false, true, false, false]
  {
    var nums := [2, 7, 11, 15];
    assert MatchedFlags(nums, 9, 1) == [false];
    assert MatchedFlags(nums, 9, 2) == [false, true];
    assert MatchedFlags(nums, 9, 3) == [false, true, false];
  }

  lemma FlagsForThirteen()
    ensures MatchedFlags([2, 7, 11, 15], 13, 4) == [false, false, true, false]
  {
    var nums := [2, 7, 11, 15];
    assert MatchedFlags(nums, 13, 1) == [false];
    assert MatchedFlags(nums, 13, 2) == [false, false];
    assert MatchedFlags(nums, 13, 3) == [false, false, true];
  }

  lemma FlagsForEighteen()
    ensures MatchedFlags([2, 7, 11, 15], 18, 4) == [false, false, true, false]
  {
    var nums := [2, 7, 11, 15];
    assert MatchedFlags(nums, 18, 1) == [false];
    assert MatchedFlags(nums, 18, 2) == [false, false];
    assert MatchedFlags(nums, 18, 3) == [false, false, true];
  }

  lemma FlagsForTwoPairs()
    ensures MatchedFlags([2, 7, 4, 5], 9, 4) == [false, true, false, true]
  {
    var nums := [2, 7, 4, 5];
    assert MatchedFlags(nums, 9, 1) == [false];
    assert MatchedFlags(nums, 9, 2) == [false, true];
    assert MatchedFlags(nums, 9, 3) == [false, true, false];
  }

  /** Every reported second component is a matched index. */
  lemma SecondsMatched(nums: seq<int>, target: int, r: seq<(nat, nat)>)
    requires forall k | 0 <= k < |r| :: r[k].1 < |nums|
    requires forall i | 0 <= i < |nums| :: Matched(nums, target, i) <==> i in Seconds(r)
    ensures forall k | 0 <= k < |r| :: Matched(nums, target, r[k].1)
  {
    forall k | 0 <= k < |r|
      ensures Matched(nums, target, r[k].1)
    {
      var x := r[k].1;
      assert Seconds(r)[k] == x;
      assert x in Seconds(r);
      assert Matched(nums, target, x);
    }
  }

  /** Strictly increasing second components are pairwise distinct. */
  lemma SecondsDistinct(r: seq<(nat, nat)>)
    requires forall k, l | 0 <= k < l < |r| :: r[k].1 < r[l].1
    ensures forall k, l | 0 <= k < |r| && 0 <= l < |r| && r[k].1 == r[l].1 :: k == l
  {
  }

  /** Pairs with strictly increasing second components, all equal to i, one of them present: exactly one pair. */
  lemma OnePair(r: seq<(nat, nat)>, i: nat)
    requires forall k | 0 <= k < |r| :: r[k].1 == i
    requires forall k, l | 0 <= k < l < |r| :: r[k].1 < r[l].1
    requires i in Seconds(r)
    ensures |r| == 1
  {
    assert |Seconds(r)| == |r| > 0;
    SecondsDistinct(r);
    assert r[0].1 == r[|r| - 1].1;
  }

  /** Pairs with strictly increasing second components drawn from {i, j}, both present: those two, in order. */
  lemma TwoPairs(r: seq<(nat, nat)>, i: nat, j: nat)
    requires i < j
    requires forall k | 0 <= k < |r| :: r[k].1 == i || r[k].1 == j
    requires forall k, l | 0 <= k < l < |r| :: r[k].1 < r[l].1
    requires i in Seconds(r) && j in Seconds(r)
    ensures |r| == 2 && r[0].1 == i && r[1].1 == j
  {
    var ki :| 0 <= ki < |r| && Seconds(r)[ki] == i;
    var kj :| 0 <= kj < |r| && Seconds(r)[kj] == j;
    assert ki < kj;
    SecondsDistinct(r);
    assert r[0].1 == i && r[|r| - 1].1 == j && r[1].1 == j;
  }

  /**
   * A report meeting the postcondition of `TwoSum` where only index i is
   * matched and only index j before it completes the target is the single
   * pair (j, i).
   */
  lemma SinglePair(nums: seq<int>, target: int, r: seq<(nat, nat)>, j: nat, i: nat)
    requires forall k | 0 <= k < |r| :: r[k].0 < r[k].1 < |nums| && nums[r[k].0] + nums[r[k].1] == target
    requires forall k, l | 0 <= k < l < |r| :: r[k].1 < r[l].1
    requires forall x | 0 <= x < |nums| :: Matched(nums, target, x) <==> x in Seconds(r)
    requires i < |nums| && Matched(nums, target, i)
    requires forall x | 0 <= x < |nums| && x != i :: !Matched(nums, target, x)
    requires forall y | 0 <= y < i && nums[y] + nums[i] == target :: y == j
    ensures r == [(j, i)]
  {
    SecondsMatched(nums, target, r);
    assert forall k | 0 <= k < |r| :: r[k].1 == i;
    OnePair(r, i);
  }

  method NineScenario() returns (r: seq<(nat, nat)>)
    ensures r == [(0, 1)]
  {
    var nums := [2, 7, 11, 15];
    r := TwoSum(nums, 9);
    FlagsForNine();
    SinglePair(nums, 9, r, 0, 1);
  }

  method ThirteenScenario() returns (r: seq<(nat, nat)>)
    ensures r == [(0, 2)]
  {
    var nums := [2, 7, 11, 15];
    r := TwoSum(nums, 13);
    FlagsForThirteen();
    SinglePair(nums, 13, r, 0, 2);
  }

  method EighteenScenario() returns (r: seq<(nat, nat)>)
    ensures r == [(1, 2)]
  {
    var nums := [2, 7, 11, 15];
    r := TwoSum(nums, 18);
    FlagsForEighteen();
    SinglePair(nums, 18, r, 1, 2);
  }

  method TwoPairsScenario() returns (r: seq<(nat, nat)>)
    ensures r == [(0, 1), (2, 3)]
  {
    var nums := [2, 7, 4, 5];
    r := TwoSum(nums, 9);
    FlagsForTwoPairs();
    assert Matched(nums, 9, 1) && Matched(nums, 9, 3);
    SecondsMatched(nums, 9, r);
    assert forall k | 0 <= k < |r| :: r[k].1 == 1 || r[k].1 == 3;
    assert 1 in Seconds(r) && 3 in Seconds(r);
    TwoPairs(r, 1, 3);
    assert nums[r[1].0] == 4;
  }
}
