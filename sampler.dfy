/**
 * `weighted_choice`: pick one of a list of (choice, weight) pairs by
 * scanning a running sum of the weights up to a random value drawn from
 * `[0, total]`. The draw is a parameter here (`randval`), so the scan is
 * deterministic and its outcome can be stated exactly.
 */
module Sampler {
  import opened Wrappers

  /** `sum(weight for choice, weight in choices)`. */
  function Total<T>(choices: seq<(T, int)>): int
  {
    if choices == [] then 0
    else Total(choices[..|choices| - 1]) + choices[|choices| - 1].1
  }

  /** The running sum `upto + weight` that the scan tests at pair `i`. */
  function Reach<T>(choices: seq<(T, int)>, i: nat): int
    requires i < |choices|
  {
    Total(choices[..i + 1])
  }

  /** The running sum after pair `i` is the one before it plus its weight. */
  lemma RunningSum<T>(choices: seq<(T, int)>, i: nat)
    requires i < |choices|
    ensures Total(choices[..i + 1]) == Total(choices[..i]) + choices[i].1
  {
    assert choices[..i + 1][..i] == choices[..i];
  }

  /** The sum of a concatenation is the sum of the parts. */
  lemma {:induction false} TotalConcat<T>(a: seq<(T, int)>, b: seq<(T, int)>)
    ensures Total(a + b) == Total(a) + Total(b)
  {
    if b != [] {
      var b' := b[..|b| - 1];
      assert a + b != [];
      assert (a + b)[..|a + b| - 1] == a + b';
      assert (a + b)[|a + b| - 1] == b[|b| - 1];
      TotalConcat(a, b');
      calc {
        Total(a + b);
        Total(a + b') + b[|b| - 1].1;
        Total(a) + Total(b') + b[|b| - 1].1;
      }
    } else {
      assert a + b == a;
    }
  }

  /**
   * Pair `k` is the one the scan stops at: its running sum, its own weight
   * included, is the first to reach `randval`.
   */
  ghost predicate IsFirstReaching<T>(choices: seq<(T, int)>, randval: int, k: int)
  {
    && 0 <= k < |choices|
    && Reach(choices, k) >= randval
    && forall j :: 0 <= j < k ==> Reach(choices, j) < randval
  }

  /** The index the scan stops at, searching from pair `i` on. */
  function FirstReachingFrom<T>(choices: seq<(T, int)>, randval: int, i: nat): (k: Option<nat>)
    requires i <= |choices|
    requires forall j :: 0 <= j < i ==> Reach(choices, j) < randval
    ensures k.Some? ==> IsFirstReaching(choices, randval, k.value)
    ensures k.None? ==> forall j :: 0 <= j < |choices| ==> Reach(choices, j) < randval
    decreases |choices| - i
  {
    if i == |choices| then None
    else if Reach(choices, i) >= randval then Some(i)
    else FirstReachingFrom(choices, randval, i + 1)
  }

  /** The choice `weighted_choice` returns for the draw `randval`; None where it reaches `assert False`. */
  function Pick<T>(choices: seq<(T, int)>, randval: int): Option<T>
  {
    match FirstReachingFrom(choices, randval, 0)
    case None => None
    case Some(k) => Some(choices[k].0)
  }

  /** The scan of `weighted_choice`, with the random draw passed in. */
  method WeightedChoice<T>(choices: seq<(T, int)>, randval: int) returns (r: Option<T>)
    ensures r == Pick(choices, randval)
  {
    var upto := 0;
    var i := 0;
    while i < |choices|
      invariant 0 <= i <= |choices|
      invariant upto == Total(choices[..i])
      invariant forall j :: 0 <= j < i ==> Reach(choices, j) < randval
    {
      var (choice, weight) := choices[i];
      RunningSum(choices, i);
      if upto + weight >= randval {
        FirstReachingIsUnique(choices, randval, i);
        return Some(choice);
      }
      upto := upto + weight;
      i := i + 1;
    }
    return None;
  }

  /**
   * Pick returns exactly the choice of the first pair whose running sum
   * reaches `randval`.
   */
  lemma FirstReachingIsUnique<T>(choices: seq<(T, int)>, randval: int, k: int)
    requires IsFirstReaching(choices, randval, k)
    ensures Pick(choices, randval) == Some(choices[k].0)
    ensures FirstReachingFrom(choices, randval, 0) == Some(k)
  {
    var f := FirstReachingFrom(choices, randval, 0);
    assert Reach(choices, k) >= randval;
    assert f.Some? && f.value == k;
  }

  /** The scan falls through to `assert False` exactly when no running sum reaches `randval`. */
  lemma PickNone<T>(choices: seq<(T, int)>, randval: int)
    ensures Pick(choices, randval).None? <==> forall j :: 0 <= j < |choices| ==> Reach(choices, j) < randval
  {
    if !Pick(choices, randval).None? {
      var k := FirstReachingFrom(choices, randval, 0).value;
      assert Reach(choices, k) >= randval;
    }
  }

  /**
   * With a draw no larger than the total (as `random.uniform(0, total)`
   * gives), a non-empty scan always returns and never reaches `assert False`.
   */
  lemma PickNeverFails<T>(choices: seq<(T, int)>, randval: int)
    requires |choices| > 0
    requires randval <= Total(choices)
    ensures Pick(choices, randval).Some?
  {
    var n := |choices|;
    assert choices[..n] == choices;
    PickNone(choices, randval);
    assert Reach(choices, n - 1) >= randval;
  }

  /** A single pair is returned whatever the draw in `[0, weight]`. */
  lemma PickSingle<T>(choice: T, weight: int, randval: int)
    requires randval <= weight
    ensures Pick([(choice, weight)], randval) == Some(choice)
  {
    var choices := [(choice, weight)];
    assert choices[..1] == choices;
    assert Total(choices) == weight by {
      assert choices[..0] == [];
    }
    FirstReachingIsUnique(choices, randval, 0);
  }

  /** With non-negative weights the running sums never decrease. */
  lemma {:induction false} RunningSumMonotone<T>(choices: seq<(T, int)>, i: nat, j: nat)
    requires forall k :: 0 <= k < |choices| ==> choices[k].1 >= 0
    requires i <= j <= |choices|
    ensures Total(choices[..i]) <= Total(choices[..j])
    decreases j - i
  {
    if i < j {
      RunningSum(choices, i);
      RunningSumMonotone(choices, i + 1, j);
    }
  }

  /**
   * With non-negative weights, every draw in the interval
   * `(Total(choices[..k]), Total(choices[..k+1])]`, whose width is pair
   * `k`'s weight, chooses pair `k`. `PickedInInterval` and `PickAtZero`
   * give the converse: the intervals account for every positive draw, and
   * a draw of 0 or less chooses the first pair.
   */
  lemma PickInterval<T>(choices: seq<(T, int)>, randval: int, k: nat)
    requires forall i :: 0 <= i < |choices| ==> choices[i].1 >= 0
    requires k < |choices|
    requires Total(choices[..k]) < randval <= Total(choices[..k + 1])
    ensures Pick(choices, randval) == Some(choices[k].0)
  {
    forall j | 0 <= j < k ensures Reach(choices, j) < randval {
      RunningSumMonotone(choices, j + 1, k);
    }
    FirstReachingIsUnique(choices, randval, k);
  }

  /** With non-negative weights, a positive draw stops the scan at pair `k` only from inside pair `k`'s interval. */
  lemma PickedInInterval<T>(choices: seq<(T, int)>, randval: int, k: nat)
    requires forall i :: 0 <= i < |choices| ==> choices[i].1 >= 0
    requires 0 < randval
    requires FirstReachingFrom(choices, randval, 0) == Some(k)
    ensures k < |choices| && Total(choices[..k]) < randval <= Total(choices[..k + 1])
  {
    if k > 0 {
      assert Reach(choices, k - 1) < randval;
    } else {
      assert choices[..0] == [];
    }
  }

  /**
   * A draw of 0 or less chooses the first pair whenever the weights are
   * non-negative, although it lies outside that pair's interval: with
   * integer draws the first pair has one draw more than its weight.
   */
  lemma PickAtZero<T>(choices: seq<(T, int)>, randval: int)
    requires forall i :: 0 <= i < |choices| ==> choices[i].1 >= 0
    requires |choices| > 0 && randval <= 0
    ensures FirstReachingFrom(choices, randval, 0) == Some(0)
    ensures Pick(choices, randval) == Some(choices[0].0)
  {
    RunningSum(choices, 0);
    assert choices[..0] == [];
  }
}
