/** Holm-Bonferroni step-down correction (src/release_sentinel/coverage/assessment.py).

    The specification does not mention sorting: the rank of a p-value counts the values
    before it, and a hypothesis is rejected when it and everything before it passes its own
    adjusted level. Floats are reals. */
module Holm {
  import opened Wrappers
  import opened Sorting
  import opened Sets

  datatype Correction = Correction(rawPValue: real, holmRank: nat, adjustedAlpha: real, reject: bool)

  datatype HolmError = AlphaOutOfRange | PValueOutOfRange

  // ----- Specification -----

  /** Order by p-value, ties by input position. */
  predicate Precedes(values: seq<real>, i: nat, j: nat)
    requires i < |values| && j < |values|
  {
    values[i] < values[j] || (values[i] == values[j] && i < j)
  }

  ghost function Before(values: seq<real>, i: nat): set<nat>
    requires i < |values|
  {
    set j: nat | j < |values| && Precedes(values, j, i)
  }

  ghost function Rank(values: seq<real>, i: nat): (rank: nat)
    requires i < |values|
    ensures rank < |values|
  {
    RankBelowSize(values, i);
    |Before(values, i)|
  }

  function AdjustedAlpha(alpha: real, size: nat, rank: nat): real
    requires rank < size
  {
    alpha / (size - rank) as real
  }

  ghost predicate Passes(values: seq<real>, alpha: real, i: nat)
    requires i < |values|
  {
    values[i] <= AdjustedAlpha(alpha, |values|, Rank(values, i))
  }

  ghost predicate Rejects(values: seq<real>, alpha: real, i: nat)
    requires i < |values|
  {
    forall k: nat :: k < |values| && (k == i || Precedes(values, k, i)) ==> Passes(values, alpha, k)
  }

  // ----- Ranks -----

  lemma RankBelowSize(values: seq<real>, i: nat)
    requires i < |values|
    ensures |Before(values, i)| < |values|
  {
    assert i !in Before(values, i);
    SubsetSize(Before(values, i) + {i}, Indices(|values|));
  }

  /** Ranks grow strictly along the order; with RankBelowSize they are a permutation of 0..m-1. */
  lemma RankMonotone(values: seq<real>, i: nat, j: nat)
    requires i < |values| && j < |values| && Precedes(values, i, j)
    ensures Rank(values, i) < Rank(values, j)
  {
    assert Before(values, i) + {i} <= Before(values, j);
    assert i !in Before(values, i);
    SubsetSize(Before(values, i) + {i}, Before(values, j));
  }

  lemma RankInjective(values: seq<real>, i: nat, j: nat)
    requires i < |values| && j < |values| && i != j
    ensures Rank(values, i) != Rank(values, j)
  {
    if Precedes(values, i, j) {
      RankMonotone(values, i, j);
    } else {
      RankMonotone(values, j, i);
    }
  }

  lemma AdjustedAlphaMonotone(alpha: real, size: nat, low: nat, high: nat)
    requires alpha > 0.0 && low <= high < size
    ensures AdjustedAlpha(alpha, size, low) <= AdjustedAlpha(alpha, size, high)
  {
    DivideBySmaller(alpha, (size - low) as real, (size - high) as real);
  }

  lemma DivideBySmaller(a: real, big: real, small: real)
    requires a > 0.0 && 0.0 < small <= big
    ensures a / big <= a / small
  {
    assert a / big * big == a;
    assert a / small * small == a;
    var q := a / big;
    assert q > 0.0;
    assert q * small <= q * big;
    if a / small < q {
      assert a / small * small < q * small;
    }
  }

  // ----- The family-wise core -----

  /** Among the hypotheses of `t`, one comes first. */
  lemma {:induction false} FirstOf(values: seq<real>, t: set<nat>) returns (first: nat)
    requires t != {} && t <= Indices(|values|)
    ensures first in t && first < |values|
    ensures forall k :: k in t && k != first ==> k < |values| && Precedes(values, first, k)
  {
    var x :| x in t;
    assert x in Indices(|values|);
    if t == {x} {
      first := x;
    } else {
      var rest := FirstOf(values, t - {x});
      assert rest in Indices(|values|);
      first := if Precedes(values, x, rest) then x else rest;
      forall k | k in t && k != first
        ensures k < |values| && Precedes(values, first, k)
      {
        assert k in Indices(|values|);
        if k != x && k != rest {
          assert k in t - {x};
          assert Precedes(values, rest, k);
        }
      }
    }
  }

  /** If Holm rejects any hypothesis of `t`, some p-value of `t` is at most alpha / |t|. With `t`
      the true hypotheses, a false rejection therefore needs an event of probability at most
      alpha, by Bonferroni's inequality over `t` alone. */
  lemma FamilyWiseCore(values: seq<real>, alpha: real, t: set<nat>, i: nat)
    requires alpha > 0.0 && t <= Indices(|values|)
    requires i in t && i < |values| && Rejects(values, alpha, i)
    ensures exists k :: k in t && k < |values| && values[k] <= alpha / |t| as real
  {
    var first := FirstOf(values, t);
    assert first in Indices(|values|);
    assert Passes(values, alpha, first);
    assert t !! Before(values, first);
    SubsetSize(t + Before(values, first), Indices(|values|));
    assert |t| + Rank(values, first) <= |values|;
    DivideBySmaller(alpha, (|values| - Rank(values, first)) as real, |t| as real);
  }

  // ----- Between Bonferroni and the raw decisions -----

  /** Every Bonferroni rejection at alpha / m is a Holm rejection, and every Holm rejection is a
      raw rejection at alpha. */
  lemma Sandwich(values: seq<real>, alpha: real, i: nat)
    requires alpha > 0.0 && i < |values|
    ensures values[i] <= alpha / |values| as real ==> Rejects(values, alpha, i)
    ensures Rejects(values, alpha, i) ==> values[i] <= alpha
  {
    if values[i] <= alpha / |values| as real {
      forall k: nat | k < |values| && (k == i || Precedes(values, k, i))
        ensures Passes(values, alpha, k)
      {
        AdjustedAlphaMonotone(alpha, |values|, 0, Rank(values, k));
      }
    }
    if Rejects(values, alpha, i) {
      assert Passes(values, alpha, i);
      AdjustedAlphaMonotone(alpha, |values|, Rank(values, i), |values| - 1);
    }
  }

  // ----- Ties and input order -----

  lemma LaterTie(values: seq<real>, alpha: real, i: nat, j: nat)
    requires alpha > 0.0 && i < j < |values| && values[i] == values[j]
    requires Rejects(values, alpha, i)
    ensures Rejects(values, alpha, j)
  {
    forall k: nat | k < |values| && (k == j || Precedes(values, k, j))
      ensures Passes(values, alpha, k)
    {
      if k == i || Precedes(values, k, i) {
      } else {
        assert values[k] == values[i];
        assert Passes(values, alpha, i);
        RankMonotone(values, i, k);
        AdjustedAlphaMonotone(alpha, |values|, Rank(values, i), Rank(values, k));
      }
    }
  }

  /** Equal p-values get equal decisions. */
  lemma TiesAgree(values: seq<real>, alpha: real, i: nat, j: nat)
    requires alpha > 0.0 && i < |values| && j < |values| && values[i] == values[j]
    ensures Rejects(values, alpha, i) <==> Rejects(values, alpha, j)
  {
    if i < j {
      if Rejects(values, alpha, i) { LaterTie(values, alpha, i, j); }
    } else if j < i {
      if Rejects(values, alpha, j) { LaterTie(values, alpha, j, i); }
    }
  }

  ghost function StrictlySmaller(values: seq<real>, p: real): set<nat> {
    set j: nat | j < |values| && values[j] < p
  }

  lemma SmallerBelowSize(values: seq<real>, k: nat)
    requires k < |values|
    ensures |StrictlySmaller(values, values[k])| < |values|
  {
    assert k !in StrictlySmaller(values, values[k]);
    SubsetSize(StrictlySmaller(values, values[k]) + {k}, Indices(|values|));
  }

  ghost predicate PassesByValue(values: seq<real>, alpha: real, k: nat)
    requires k < |values|
  {
    SmallerBelowSize(values, k);
    values[k] <= AdjustedAlpha(alpha, |values|, |StrictlySmaller(values, values[k])|)
  }

  /** The decision in terms of p-values alone: every value up to `p` is at most alpha divided by
      the number of values that are not smaller than it. */
  ghost predicate RejectsByValue(values: seq<real>, alpha: real, p: real) {
    forall k: nat :: k < |values| && values[k] <= p ==> PassesByValue(values, alpha, k)
  }

  lemma FirstTie(values: seq<real>, k: nat) returns (first: nat)
    requires k < |values|
    ensures first <= k && values[first] == values[k]
    ensures Before(values, first) == StrictlySmaller(values, values[k])
  {
    first := 0;
    while values[first] != values[k]
      invariant first <= k
      invariant forall j: nat :: j < first ==> values[j] != values[k]
      decreases k - first
    {
      first := first + 1;
    }
  }

  /** The step-down decision does not depend on how ties are broken. */
  lemma RejectsIffByValue(values: seq<real>, alpha: real, i: nat)
    requires alpha > 0.0 && i < |values|
    ensures Rejects(values, alpha, i) <==> RejectsByValue(values, alpha, values[i])
  {
    if Rejects(values, alpha, i) {
      forall k: nat | k < |values| && values[k] <= values[i]
        ensures PassesByValue(values, alpha, k)
      {
        var first := FirstTie(values, k);
        if first != i && !Precedes(values, first, i) {
          TiesAgree(values, alpha, i, first);
        }
        assert Passes(values, alpha, first);
      }
    }
    if RejectsByValue(values, alpha, values[i]) {
      forall k: nat | k < |values| && (k == i || Precedes(values, k, i))
        ensures Passes(values, alpha, k)
      {
        var first := FirstTie(values, k);
        assert PassesByValue(values, alpha, k);
        if first != k {
          RankMonotone(values, first, k);
          AdjustedAlphaMonotone(alpha, |values|, Rank(values, first), Rank(values, k));
        }
      }
    }
  }

  ghost predicate Permutes(perm: seq<nat>) {
    && Distinct(perm)
    && forall k :: 0 <= k < |perm| ==> perm[k] < |perm|
  }

  function Permuted(values: seq<real>, perm: seq<nat>): (r: seq<real>)
    requires |perm| == |values| && forall k :: 0 <= k < |perm| ==> perm[k] < |values|
    ensures |r| == |values| && forall k :: 0 <= k < |r| ==> r[k] == values[perm[k]]
  {
    seq(|perm|, k requires 0 <= k < |perm| => values[perm[k]])
  }

  ghost function Image(perm: seq<nat>, s: set<nat>): (r: set<nat>)
    ensures forall k {:trigger perm[k]} :: k in s && k < |perm| ==> perm[k] in r
  {
    set k | k in s && k < |perm| :: perm[k]
  }

  lemma ImageOneMore(perm: seq<nat>, s: set<nat>, x: nat)
    requires Distinct(perm) && s <= Indices(|perm|) && x in s && x < |perm|
    ensures Image(perm, s) == Image(perm, s - {x}) + {perm[x]}
    ensures perm[x] !in Image(perm, s - {x})
  {
  }

  /** The image of a set of positions under an injective list has as many elements. */
  lemma {:induction false} ImageSize(perm: seq<nat>, s: set<nat>)
    requires Distinct(perm) && s <= Indices(|perm|)
    ensures |Image(perm, s)| == |s|
  {
    hide Image;
    if s == {} {
      assert Image(perm, s) == {} by {
        EmptyImage(perm);
      }
    } else {
      var x :| x in s;
      assert x in Indices(|perm|);
      ImageSize(perm, s - {x});
      ImageOneMore(perm, s, x);
    }
  }

  lemma EmptyImage(perm: seq<nat>)
    ensures Image(perm, {}) == {}
  {
  }

  lemma ImageWithin(perm: seq<nat>, s: set<nat>)
    requires Permutes(perm)
    ensures Image(perm, s) <= Indices(|perm|)
  {
  }

  lemma PreimageOf(perm: seq<nat>, s: set<nat>, j: nat) returns (k: nat)
    requires j in Image(perm, s)
    ensures k in s && k < |perm| && perm[k] == j
  {
    k :| k in s && k < |perm| && perm[k] == j;
  }

  /** A permutation of 0..m-1 reaches every position. */
  lemma PermutationOnto(perm: seq<nat>, j: nat) returns (k: nat)
    requires Permutes(perm) && j < |perm|
    ensures k < |perm| && perm[k] == j
  {
    hide Image;
    ImageSize(perm, Indices(|perm|));
    ImageWithin(perm, Indices(|perm|));
    WholeSet(Image(perm, Indices(|perm|)), Indices(|perm|));
    k := PreimageOf(perm, Indices(|perm|), j);
  }

  lemma StrictlySmallerPermuted(values: seq<real>, perm: seq<nat>, p: real)
    requires |perm| == |values| && Permutes(perm)
    ensures |StrictlySmaller(Permuted(values, perm), p)| == |StrictlySmaller(values, p)|
  {
    var s := StrictlySmaller(Permuted(values, perm), p);
    ImageSize(perm, s);
    forall j: nat
      ensures j in Image(perm, s) <==> j in StrictlySmaller(values, p)
    {
      if j in Image(perm, s) {
        var k := PreimageOf(perm, s, j);
      }
      if j in StrictlySmaller(values, p) {
        var k := PermutationOnto(perm, j);
        assert k in s;
      }
    }
    hide Image, StrictlySmaller;
    assert Image(perm, s) == StrictlySmaller(values, p);
  }

  lemma PassesPermuted(values: seq<real>, alpha: real, perm: seq<nat>, k: nat)
    requires |perm| == |values| && Permutes(perm) && k < |values|
    ensures PassesByValue(Permuted(values, perm), alpha, k) <==> PassesByValue(values, alpha, perm[k])
  {
    StrictlySmallerPermuted(values, perm, values[perm[k]]);
  }

  /** Permuting the p-values permutes the decisions. */
  lemma DecisionsFollowPermutation(values: seq<real>, alpha: real, perm: seq<nat>, i: nat)
    requires alpha > 0.0 && |perm| == |values| && Permutes(perm) && i < |values|
    ensures Rejects(Permuted(values, perm), alpha, i) <==> Rejects(values, alpha, perm[i])
  {
    var permuted := Permuted(values, perm);
    var p := permuted[i];
    RejectsIffByValue(permuted, alpha, i);
    RejectsIffByValue(values, alpha, perm[i]);
    if RejectsByValue(permuted, alpha, p) {
      forall j: nat | j < |values| && values[j] <= p
        ensures PassesByValue(values, alpha, j)
      {
        var k := PermutationOnto(perm, j);
        PassesPermuted(values, alpha, perm, k);
      }
    }
    if RejectsByValue(values, alpha, p) {
      forall k: nat | k < |permuted| && permuted[k] <= p
        ensures PassesByValue(permuted, alpha, k)
      {
        PassesPermuted(values, alpha, perm, k);
      }
    }
  }

  // ----- The algorithm -----

  /** The sort key `(value, index)`; positions outside the list never occur. */
  function KeyOrder(values: seq<real>): (nat, nat) -> bool {
    (i: nat, j: nat) =>
      var p := if i < |values| then values[i] else 2.0;
      var q := if j < |values| then values[j] else 2.0;
      p < q || (p == q && i <= j)
  }

  /** `sorted(enumerate(values), key=...)`, as positions. */
  function Ranked(values: seq<real>): seq<nat> {
    SortBy<nat>(seq(|values|, (i: nat) => i), KeyOrder(values))
  }

  lemma RankedPermutes(values: seq<real>)
    ensures |Ranked(values)| == |values| && Permutes(Ranked(values))
  {
    var all: seq<nat> := seq(|values|, (i: nat) => i);
    var ranked := Ranked(values);
    SortBySorts(all, KeyOrder(values));
    SortByDistinct(all, KeyOrder(values));
    forall k | 0 <= k < |ranked|
      ensures ranked[k] < |values|
    {
      assert ranked[k] in multiset(ranked);
      assert ranked[k] in multiset(all);
    }
  }

  lemma RankedPrecedes(values: seq<real>, k: nat, l: nat)
    requires |Ranked(values)| == |values| && Permutes(Ranked(values))
    requires k < l < |values|
    ensures Precedes(values, Ranked(values)[k], Ranked(values)[l])
  {
    SortBySorts<nat>(seq(|values|, (i: nat) => i), KeyOrder(values));
    assert KeyOrder(values)(Ranked(values)[k], Ranked(values)[l]);
  }

  lemma BeforeOf(values: seq<real>, i: nat, j: nat)
    requires i < |values| && j < |values| && Precedes(values, i, j)
    ensures i in Before(values, j) && j !in Before(values, i)
  {
  }

  lemma ImageOfPrefix(perm: seq<nat>, k: nat, l: nat)
    requires Distinct(perm) && k <= |perm| && l < |perm|
    ensures perm[l] in Image(perm, Indices(k)) <==> l < k
  {
    if l < k {
      assert l in Indices(k);
    }
  }

  /** Exactly the positions sorted before place k precede the one at place k. */
  lemma RankedBefore(values: seq<real>, ranked: seq<nat>, k: nat, l: nat)
    requires ranked == Ranked(values) && |ranked| == |values| && Permutes(ranked)
    requires k < |values| && l < |values|
    ensures ranked[l] in Before(values, ranked[k]) <==> ranked[l] in Image(ranked, Indices(k))
  {
    hide Ranked, Before, Image;
    ImageOfPrefix(ranked, k, l);
    if l < k {
      RankedPrecedes(values, l, k);
      BeforeOf(values, ranked[l], ranked[k]);
    } else if k < l {
      RankedPrecedes(values, k, l);
      BeforeOf(values, ranked[k], ranked[l]);
    } else {
      NotBeforeItself(values, ranked[k]);
    }
  }

  lemma NotBeforeItself(values: seq<real>, i: nat)
    requires i < |values|
    ensures i !in Before(values, i)
  {
  }

  lemma BeforeWithin(values: seq<real>, i: nat)
    requires i < |values|
    ensures Before(values, i) <= Indices(|values|)
  {
  }

  /** The k-th entry of the sorted list has rank k. */
  lemma RankedRank(values: seq<real>, k: nat)
    requires |Ranked(values)| == |values| && Permutes(Ranked(values))
    requires k < |values|
    ensures Rank(values, Ranked(values)[k]) == k
  {
    hide Ranked, Before, Image;
    var ranked := Ranked(values);
    ImageSize(ranked, Indices(k));
    ImageWithin(ranked, Indices(k));
    BeforeWithin(values, ranked[k]);
    forall j: nat | j < |values|
      ensures j in Before(values, ranked[k]) <==> j in Image(ranked, Indices(k))
    {
      var l := PermutationOnto(ranked, j);
      RankedBefore(values, ranked, k, l);
    }
    assert Before(values, ranked[k]) == Image(ranked, Indices(k));
  }

  /** `[item for item in results if item is not None]` */
  function Present<T>(results: seq<Option<T>>): seq<T> {
    if results == [] then []
    else (match results[0] case Some(x) => [x] case None => []) + Present(results[1..])
  }

  lemma {:induction false} PresentDropsNothing<T>(results: seq<Option<T>>)
    requires forall i :: 0 <= i < |results| ==> results[i].Some?
    ensures |Present(results)| == |results|
    ensures forall i :: 0 <= i < |results| ==> Present(results)[i] == results[i].value
  {
    if results == [] {
    } else {
      PresentDropsNothing(results[1..]);
    }
  }

  ghost function CorrectionOf(values: seq<real>, alpha: real, i: nat): Correction
    requires i < |values|
  {
    var rank := Rank(values, i);
    Correction(values[i], rank + 1, AdjustedAlpha(alpha, |values|, rank), Rejects(values, alpha, i))
  }

  lemma QuotientTimes(a: real, n: nat)
    requires n > 0
    ensures a / n as real * n as real == a
  {
  }

  lemma BelowQuotient(x: real, a: real, n: nat)
    requires n > 0
    ensures x <= a / n as real <==> x * n as real <= a
  {
    var d, q := n as real, a / n as real;
    QuotientTimes(a, n);
    if x <= q {
      Scaled(x, q, d);
    } else {
      Scaled(q, x, d);
      assert (x - q) * d > 0.0;
    }
  }

  lemma Scaled(x: real, y: real, d: real)
    requires x <= y && d > 0.0
    ensures x * d <= y * d
  {
    assert (y - x) * d >= 0.0;
  }

  ghost function NotSmaller(values: seq<real>, p: real): set<nat> {
    set j: nat | j < |values| && values[j] >= p
  }

  lemma NotSmallerSize(values: seq<real>, p: real)
    ensures |StrictlySmaller(values, p)| + |NotSmaller(values, p)| == |values|
  {
    assert StrictlySmaller(values, p) + NotSmaller(values, p) == Indices(|values|);
    assert StrictlySmaller(values, p) !! NotSmaller(values, p);
  }

  lemma PassesByProduct(values: seq<real>, alpha: real, k: nat)
    requires k < |values|
    ensures PassesByValue(values, alpha, k) <==> values[k] * |NotSmaller(values, values[k])| as real <= alpha
  {
    hide NotSmaller, StrictlySmaller;
    SmallerBelowSize(values, k);
    NotSmallerSize(values, values[k]);
    BelowQuotient(values[k], alpha, |NotSmaller(values, values[k])|);
  }

  /** What a correction says, in terms of the p-values alone: the rank counts the values before
      it, the level times the number of values from that rank on is alpha, and the hypothesis is
      rejected exactly if every value up to its own, times the number of values not smaller than
      it, is at most alpha. */
  ghost predicate StatesHolm(c: Correction, values: seq<real>, alpha: real, i: nat)
    requires i < |values|
  {
    && c.rawPValue == values[i]
    && c.holmRank == |Before(values, i)| + 1
    && c.adjustedAlpha * (|values| + 1 - c.holmRank) as real == alpha
    && (c.reject <==> forall k: nat :: k < |values| && values[k] <= values[i] ==>
          values[k] * |NotSmaller(values, values[k])| as real <= alpha)
  }

  lemma CorrectionMeaning(values: seq<real>, alpha: real, i: nat)
    requires alpha > 0.0 && i < |values|
    ensures StatesHolm(CorrectionOf(values, alpha, i), values, alpha, i)
  {
    hide NotSmaller, Before, PassesByValue, Rejects;
    QuotientTimes(alpha, |values| - Rank(values, i));
    RejectsIffByValue(values, alpha, i);
    forall k: nat | k < |values|
      ensures PassesByValue(values, alpha, k) <==> values[k] * |NotSmaller(values, values[k])| as real <= alpha
    {
      PassesByProduct(values, alpha, k);
    }
  }

  ghost predicate PassesUpTo(values: seq<real>, alpha: real, ranked: seq<nat>, count: nat)
    requires |ranked| == |values| && Permutes(ranked) && count <= |values|
  {
    forall l: nat :: l < count ==> Passes(values, alpha, ranked[l])
  }

  /** Rejection reaches rank k exactly when all ranks up to k pass. */
  lemma StepDown(values: seq<real>, alpha: real, k: nat)
    requires |Ranked(values)| == |values| && Permutes(Ranked(values)) && k < |values|
    ensures Rejects(values, alpha, Ranked(values)[k]) <==> PassesUpTo(values, alpha, Ranked(values), k + 1)
  {
    var ranked := Ranked(values);
    if Rejects(values, alpha, ranked[k]) {
      forall l: nat | l <= k
        ensures Passes(values, alpha, ranked[l])
      {
        if l < k {
          RankedPrecedes(values, l, k);
        }
      }
    }
    if PassesUpTo(values, alpha, ranked, k + 1) {
      forall j: nat | j < |values| && (j == ranked[k] || Precedes(values, j, ranked[k]))
        ensures Passes(values, alpha, j)
      {
        var l := PermutationOnto(ranked, j);
        if l > k {
          RankedPrecedes(values, k, l);
        }
      }
    }
  }

  /** The loop over the ranked p-values fills every slot of `results`. */
  method FillResults(values: seq<real>, alpha: real) returns (results: seq<Option<Correction>>)
    ensures |results| == |values|
    ensures forall i: nat :: i < |values| ==> results[i] == Some(CorrectionOf(values, alpha, i))
  {
    RankedPermutes(values);
    var ranked := Ranked(values);
    var familySize := |values|;
    results := seq(familySize, _ => None);
    var continueRejecting := true;
    for rank := 0 to familySize
      invariant |results| == familySize
      invariant continueRejecting <==> PassesUpTo(values, alpha, ranked, rank)
      invariant forall l: nat :: l < rank ==> results[ranked[l]] == Some(CorrectionOf(values, alpha, ranked[l]))
    {
      var i := ranked[rank];
      var adjustedAlpha := AdjustedAlpha(alpha, familySize, rank);
      var reject := continueRejecting && values[i] <= adjustedAlpha;
      RankedRank(values, rank);
      StepDown(values, alpha, rank);
      if !reject {
        continueRejecting := false;
      }
      results := results[i := Some(Correction(values[i], rank + 1, adjustedAlpha, reject))];
    }
    forall i: nat | i < familySize
      ensures results[i] == Some(CorrectionOf(values, alpha, i))
    {
      var l := PermutationOnto(ranked, i);
    }
  }

  method HolmBonferroni(values: seq<real>, alpha: real) returns (r: Result<seq<Correction>, HolmError>)
    ensures r == Err(AlphaOutOfRange) <==> !(0.0 < alpha <= 1.0)
    ensures r == Err(PValueOutOfRange) <==>
              0.0 < alpha <= 1.0 && exists i :: 0 <= i < |values| && !(0.0 <= values[i] <= 1.0)
    ensures r.Ok? <==> 0.0 < alpha <= 1.0 && forall i :: 0 <= i < |values| ==> 0.0 <= values[i] <= 1.0
    ensures r.Ok? ==> |r.value| == |values|
    ensures r.Ok? ==> forall i: nat :: i < |values| ==> r.value[i] == CorrectionOf(values, alpha, i)
    ensures r.Ok? ==> forall i: nat :: i < |values| ==> StatesHolm(r.value[i], values, alpha, i)
  {
    hide CorrectionOf, StatesHolm;
    if !(0.0 < alpha <= 1.0) {
      return Err(AlphaOutOfRange);
    }
    if exists i :: 0 <= i < |values| && !(0.0 <= values[i] <= 1.0) {
      return Err(PValueOutOfRange);
    }
    if |values| == 0 {
      return Ok([]);
    }
    var results := FillResults(values, alpha);
    PresentDropsNothing(results);
    forall i: nat | i < |values| {
      CorrectionMeaning(values, alpha, i);
    }
    return Ok(Present(results));
  }
}
