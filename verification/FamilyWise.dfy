/** The family-wise error of the step-down correction
    (src/release_sentinel/coverage/assessment.py).

    The sample space is finite: outcome `o` has weight `weights[o]` and yields the p-values
    `pValues[o]`, one for each hypothesis. */
module FamilyWise {
  import opened Sets
  import Holm

  /** The probability of an event. */
  ghost function Weight(weights: seq<real>, event: set<nat>): real {
    if weights == [] then 0.0
    else
      var n := |weights| - 1;
      Weight(weights[..n], event) + if n in event then weights[n] else 0.0
  }

  ghost predicate Nonnegative(weights: seq<real>) {
    forall o :: 0 <= o < |weights| ==> weights[o] >= 0.0
  }

  lemma {:induction false} WeightMonotone(weights: seq<real>, a: set<nat>, b: set<nat>)
    requires Nonnegative(weights) && forall o: nat :: o < |weights| && o in a ==> o in b
    ensures Weight(weights, a) <= Weight(weights, b)
  {
    if weights == [] {
    } else {
      WeightMonotone(weights[..|weights| - 1], a, b);
    }
  }

  lemma {:induction false} WeightOfUnion(weights: seq<real>, a: set<nat>, b: set<nat>)
    requires Nonnegative(weights)
    ensures Weight(weights, a + b) <= Weight(weights, a) + Weight(weights, b)
  {
    if weights == [] {
    } else {
      WeightOfUnion(weights[..|weights| - 1], a, b);
    }
  }

  lemma {:induction false} WeightOfNothing(weights: seq<real>)
    ensures Weight(weights, {}) == 0.0
  {
    if weights == [] {
    } else {
      WeightOfNothing(weights[..|weights| - 1]);
    }
  }

  /** An experiment over `size` hypotheses. */
  ghost predicate Experiment(weights: seq<real>, pValues: seq<seq<real>>, size: nat) {
    && Nonnegative(weights) && |pValues| == |weights|
    && forall o :: 0 <= o < |pValues| ==> |pValues[o]| == size
  }

  /** The outcomes in which the p-value of hypothesis `i` is at most `x`. */
  ghost function AtMost(pValues: seq<seq<real>>, i: nat, x: real): set<nat> {
    set o: nat | o < |pValues| && i < |pValues[o]| && pValues[o][i] <= x
  }

  /** The outcomes in which some p-value of `t` is at most `x`. */
  ghost function SomeAtMost(pValues: seq<seq<real>>, t: set<nat>, x: real): set<nat> {
    set o: nat | o < |pValues| && exists i :: i in t && i < |pValues[o]| && pValues[o][i] <= x
  }

  /** The p-value of a true hypothesis is at most x with probability at most x. */
  ghost predicate ValidPValue(weights: seq<real>, pValues: seq<seq<real>>, i: nat) {
    forall x :: x >= 0.0 ==> Weight(weights, AtMost(pValues, i, x)) <= x
  }

  /** The outcomes in which a hypothesis of `t` is rejected. */
  ghost function SomeRejected(pValues: seq<seq<real>>, alpha: real, t: set<nat>): set<nat> {
    set o: nat | o < |pValues| && exists i :: i in t && i < |pValues[o]| && Holm.Rejects(pValues[o], alpha, i)
  }

  lemma SomeAtMostOneMore(pValues: seq<seq<real>>, t: set<nat>, i: nat, x: real)
    requires i in t
    ensures SomeAtMost(pValues, t, x) == SomeAtMost(pValues, t - {i}, x) + AtMost(pValues, i, x)
  {
    forall o | o in SomeAtMost(pValues, t, x)
      ensures o in SomeAtMost(pValues, t - {i}, x) + AtMost(pValues, i, x)
    {
      var k :| k in t && k < |pValues[o]| && pValues[o][k] <= x;
      assert k == i || k in t - {i};
    }
  }

  /** Bonferroni's inequality. */
  lemma {:induction false} UnionBound(weights: seq<real>, pValues: seq<seq<real>>, t: set<nat>, x: real)
    requires Nonnegative(weights) && x >= 0.0 && forall i :: i in t ==> ValidPValue(weights, pValues, i)
    ensures Weight(weights, SomeAtMost(pValues, t, x)) <= |t| as real * x
  {
    if t == {} {
      assert SomeAtMost(pValues, t, x) == {};
      WeightOfNothing(weights);
    } else {
      var i :| i in t;
      UnionBound(weights, pValues, t - {i}, x);
      SomeAtMostOneMore(pValues, t, i, x);
      WeightOfUnion(weights, SomeAtMost(pValues, t - {i}, x), AtMost(pValues, i, x));
      assert |t| as real * x == |t - {i}| as real * x + x;
    }
  }

  lemma ShareTimesSize(alpha: real, size: nat) returns (share: real)
    requires alpha > 0.0 && size > 0
    ensures share == alpha / size as real && share >= 0.0 && size as real * share == alpha
  {
    share := alpha / size as real;
  }

  lemma RejectedIsSmall(pValues: seq<seq<real>>, size: nat, alpha: real, t: set<nat>, o: nat)
    requires alpha > 0.0 && t <= Indices(size) && t != {}
    requires o in SomeRejected(pValues, alpha, t) && |pValues[o]| == size
    ensures o in SomeAtMost(pValues, t, alpha / |t| as real)
  {
    var i :| i in t && i < |pValues[o]| && Holm.Rejects(pValues[o], alpha, i);
    Holm.FamilyWiseCore(pValues[o], alpha, t, i);
  }

  lemma RejectionsAreSmall(pValues: seq<seq<real>>, size: nat, alpha: real, t: set<nat>)
    requires alpha > 0.0 && t <= Indices(size) && t != {}
    requires forall o :: 0 <= o < |pValues| ==> |pValues[o]| == size
    ensures forall o: nat :: o in SomeRejected(pValues, alpha, t) ==> o in SomeAtMost(pValues, t, alpha / |t| as real)
  {
    forall o: nat | o in SomeRejected(pValues, alpha, t)
      ensures o in SomeAtMost(pValues, t, alpha / |t| as real)
    {
      RejectedIsSmall(pValues, size, alpha, t, o);
    }
  }

  /** With `t` the true hypotheses, whose p-values are valid and may depend on each other in any
      way, the probability that any of them is rejected is at most alpha. */
  lemma FamilyWiseError(weights: seq<real>, pValues: seq<seq<real>>, size: nat, alpha: real, t: set<nat>)
    requires Experiment(weights, pValues, size) && alpha > 0.0 && t <= Indices(size)
    requires forall i :: i in t ==> ValidPValue(weights, pValues, i)
    ensures Weight(weights, SomeRejected(pValues, alpha, t)) <= alpha
  {
    hide Holm.Rejects, ValidPValue;
    if t == {} {
      assert SomeRejected(pValues, alpha, t) == {};
      WeightOfNothing(weights);
    } else {
      RejectionsAreSmall(pValues, size, alpha, t);
      hide SomeRejected, SomeAtMost, Weight;
      var x := ShareTimesSize(alpha, |t|);
      WeightMonotone(weights, SomeRejected(pValues, alpha, t), SomeAtMost(pValues, t, x));
      UnionBound(weights, pValues, t, x);
    }
  }
}
