/** The exact paired comparison (src/release_sentinel/coverage/assessment.py).

    The reference is the test itself: under the null hypothesis each discordant pair points
    either way with probability one half, so all 2^d ways to direct d pairs are equally likely,
    and the p-value is the fraction of them at least as lopsided as what was observed. */
module McNemar {
  import opened Wrappers
  import opened Sets

  datatype Comparison = Comparison(
    totalPairs: nat, onlyFirst: nat, onlySecond: nat, discordantPairs: nat, exactPValue: real)

  datatype PairingError = CandidateIdsDiffer

  function Pow2(n: nat): (r: nat)
    ensures r > 0
  {
    if n == 0 then 1 else 2 * Pow2(n - 1)
  }

  /** `math.comb` */
  function Comb(n: nat, k: nat): nat {
    if k == 0 then 1
    else if n == 0 then 0
    else Comb(n - 1, k - 1) + Comb(n - 1, k)
  }

  /** `sum(math.comb(n, i) for i in range(m + 1))` */
  function Tail(n: nat, m: nat): nat {
    Comb(n, m) + if m == 0 then 0 else Tail(n, m - 1)
  }

  function Min(a: nat, b: nat): nat { if a <= b then a else b }

  function Gap(a: nat, b: nat): nat { if a <= b then b - a else a - b }

  /** `min(1.0, count / total)` */
  function Capped(count: nat, total: nat): real
    requires total > 0
  {
    var p := count as real / total as real;
    if p < 1.0 then p else 1.0
  }

  function PValue(onlyFirst: nat, onlySecond: nat): real {
    var discordant := onlyFirst + onlySecond;
    if discordant == 0 then 1.0
    else Capped(2 * Tail(discordant, Min(onlyFirst, onlySecond)), Pow2(discordant))
  }

  /** The ids flagged in `a` but not in `b`. */
  function Only(a: map<string, bool>, b: map<string, bool>): set<string> {
    set id | id in a && id in b && a[id] && !b[id]
  }

  function PairedMcnemarExact(first: map<string, bool>, second: map<string, bool>): Result<Comparison, PairingError> {
    if first.Keys != second.Keys then Err(CandidateIdsDiffer)
    else
      var onlyFirst := |Only(first, second)|;
      var onlySecond := |Only(second, first)|;
      Ok(Comparison(|first|, onlyFirst, onlySecond, onlyFirst + onlySecond, PValue(onlyFirst, onlySecond)))
  }

  // ----- The sample space -----

  /** The number of ways to direct the remaining `pairs`, with `ones` already pointing to the
      first map, such that the final number pointing there is `good`. */
  ghost function Ways(pairs: nat, ones: nat, good: nat -> bool): nat {
    if pairs == 0 then (if good(ones) then 1 else 0)
    else Ways(pairs - 1, ones, good) + Ways(pairs - 1, ones + 1, good)
  }

  /** With `n` of `d` pairs pointing one way, the two directions differ by at least `gap`. */
  ghost function AsLopsided(d: nat, gap: nat): nat -> bool {
    (n: nat) => 2 * n >= d + gap || 2 * n + gap <= d
  }

  /** The outcomes of `d` discordant pairs whose directions differ by at least `gap`. */
  ghost function ExtremeWays(d: nat, gap: nat): nat {
    Ways(d, 0, AsLopsided(d, gap))
  }

  // ----- Counting -----

  lemma {:induction false} WaysTotal(pairs: nat, ones: nat, good: nat -> bool)
    requires forall n: nat :: ones <= n <= ones + pairs ==> good(n)
    ensures Ways(pairs, ones, good) == Pow2(pairs)
  {
    if pairs == 0 {
    } else {
      WaysTotal(pairs - 1, ones, good);
      WaysTotal(pairs - 1, ones + 1, good);
    }
  }

  /** Inclusion and exclusion. */
  lemma {:induction false} WaysUnion(
    pairs: nat, ones: nat, a: nat -> bool, b: nat -> bool, either: nat -> bool, both: nat -> bool)
    requires forall n: nat :: ones <= n <= ones + pairs ==>
               (either(n) <==> a(n) || b(n)) && (both(n) <==> a(n) && b(n))
    ensures Ways(pairs, ones, either) + Ways(pairs, ones, both) == Ways(pairs, ones, a) + Ways(pairs, ones, b)
  {
    if pairs == 0 {
    } else {
      WaysUnion(pairs - 1, ones, a, b, either, both);
      WaysUnion(pairs - 1, ones + 1, a, b, either, both);
    }
  }

  /** More outcomes are good for a weaker condition, strictly more if it adds a reachable one. */
  lemma {:induction false} WaysMonotone(pairs: nat, ones: nat, a: nat -> bool, b: nat -> bool, added: nat)
    requires forall n: nat :: ones <= n <= ones + pairs && a(n) ==> b(n)
    ensures Ways(pairs, ones, a) <= Ways(pairs, ones, b)
    ensures ones <= added <= ones + pairs && b(added) && !a(added) ==> Ways(pairs, ones, a) < Ways(pairs, ones, b)
  {
    if pairs == 0 {
    } else {
      WaysMonotone(pairs - 1, ones, a, b, added);
      WaysMonotone(pairs - 1, ones + 1, a, b, added);
    }
  }

  /** Reversing every direction is a bijection between outcomes. */
  lemma {:induction false} WaysMirror(pairs: nat, ones: nat, zeros: nat, a: nat -> bool, b: nat -> bool)
    requires forall n: nat, k: nat :: n + k == ones + pairs + zeros ==> a(n) == b(k)
    ensures Ways(pairs, ones, a) == Ways(pairs, zeros, b)
  {
    if pairs == 0 {
    } else {
      WaysMirror(pairs - 1, ones, zeros + 1, a, b);
      WaysMirror(pairs - 1, ones + 1, zeros, a, b);
    }
  }

  lemma {:induction false} WaysNone(pairs: nat, ones: nat, good: nat -> bool)
    requires forall n: nat :: ones <= n <= ones + pairs ==> !good(n)
    ensures Ways(pairs, ones, good) == 0
  {
    if pairs == 0 {
    } else {
      WaysNone(pairs - 1, ones, good);
      WaysNone(pairs - 1, ones + 1, good);
    }
  }

  ghost function Never(): nat -> bool { (n: nat) => false }

  ghost function Always(): nat -> bool { (n: nat) => true }

  ghost function Equals(k: nat): nat -> bool { (n: nat) => n == k }

  ghost function AtMost(k: nat): nat -> bool { (n: nat) => n <= k }

  ghost function AtLeast(k: nat): nat -> bool { (n: nat) => n >= k }

  /** Binomial coefficients count the ways to direct exactly `k` more pairs to the first map. */
  lemma {:induction false} WaysExactly(pairs: nat, ones: nat, k: nat)
    ensures Ways(pairs, ones, Equals(ones + k)) == Comb(pairs, k)
  {
    if pairs == 0 {
    } else {
      WaysExactly(pairs - 1, ones, k);
      if k == 0 {
        WaysNone(pairs - 1, ones + 1, Equals(ones));
        assert Comb(pairs - 1, 0) == 1;
      } else {
        WaysExactly(pairs - 1, ones + 1, k - 1);
        assert ones + 1 + (k - 1) == ones + k;
      }
    }
  }

  lemma {:induction false} WaysAtMost(d: nat, m: nat)
    ensures Ways(d, 0, AtMost(m)) == Tail(d, m)
  {
    WaysExactly(d, 0, m);
    if m == 0 {
      WaysUnion(d, 0, Equals(0), Never(), AtMost(0), Never());
    } else {
      WaysAtMost(d, m - 1);
      WaysUnion(d, 0, AtMost(m - 1), Equals(m), AtMost(m), Never());
      WaysNone(d, 0, Never());
    }
  }

  /** The two tails are mirror images. */
  lemma WaysAtLeast(d: nat, m: nat)
    requires m <= d
    ensures Ways(d, 0, AtLeast(d - m)) == Tail(d, m)
  {
    WaysAtMost(d, m);
    WaysMirror(d, 0, 0, AtLeast(d - m), AtMost(m));
  }

  lemma ExtremeIsBothTails(b: nat, c: nat)
    requires b != c
    ensures ExtremeWays(b + c, Gap(b, c)) == 2 * Tail(b + c, Min(b, c))
  {
    var d, m := b + c, Min(b, c);
    WaysAtMost(d, m);
    WaysAtLeast(d, m);
    WaysUnion(d, 0, AtMost(m), AtLeast(d - m), AsLopsided(d, Gap(b, c)), Never());
    WaysNone(d, 0, Never());
  }

  lemma EqualCountsCoverAll(b: nat)
    ensures 2 * Tail(2 * b, b) == Pow2(2 * b) + Comb(2 * b, b)
  {
    var d := 2 * b;
    WaysAtMost(d, b);
    WaysAtLeast(d, b);
    WaysExactly(d, 0, b);
    WaysTotal(d, 0, Always());
    WaysUnion(d, 0, AtMost(b), AtLeast(b), Always(), Equals(b));
  }

  lemma {:induction false} CombPositive(n: nat, k: nat)
    requires k <= n
    ensures Comb(n, k) > 0
  {
    if k == 0 {
    } else {
      CombPositive(n - 1, k - 1);
    }
  }

  lemma ExtremeAtMostAll(d: nat, gap: nat)
    ensures ExtremeWays(d, gap) <= Pow2(d)
  {
    WaysMonotone(d, 0, AsLopsided(d, gap), Always(), 0);
    WaysTotal(d, 0, Always());
  }

  /** The two tails exceed the whole sample space exactly when the counts are equal: only then
      does the cap at 1 take effect. */
  lemma CapIffEqualCounts(b: nat, c: nat)
    requires b + c > 0
    ensures 2 * Tail(b + c, Min(b, c)) > Pow2(b + c) <==> b == c
  {
    if b == c {
      EqualCountsCoverAll(b);
      CombPositive(2 * b, b);
    } else {
      ExtremeIsBothTails(b, c);
      ExtremeAtMostAll(b + c, Gap(b, c));
    }
  }

  // ----- The p-value -----

  lemma CappedTimesTotal(count: nat, total: nat)
    requires total > 0
    ensures Capped(count, total) * total as real == Min(count, total) as real
  {
    var n := total as real;
    var p := count as real / n;
    assert p * n == count as real;
    if p < 1.0 {
      assert p * n < 1.0 * n;
    } else {
      assert p * n >= 1.0 * n;
    }
  }

  lemma ExtremeCount(b: nat, c: nat)
    requires b + c > 0
    ensures ExtremeWays(b + c, Gap(b, c)) == Min(2 * Tail(b + c, Min(b, c)), Pow2(b + c))
  {
    CapIffEqualCounts(b, c);
    if b == c {
      WaysTotal(b + c, 0, AsLopsided(b + c, 0));
    } else {
      ExtremeIsBothTails(b, c);
    }
  }

  /** For every pair of discordant counts the p-value is the probability of an outcome at least
      as lopsided as the observed one. */
  lemma PValueIsExactTest(b: nat, c: nat)
    ensures PValue(b, c) * Pow2(b + c) as real == ExtremeWays(b + c, Gap(b, c)) as real
  {
    if b + c == 0 {
      assert AsLopsided(0, 0)(0);
    } else {
      ExtremeCount(b, c);
      CappedTimesTotal(2 * Tail(b + c, Min(b, c)), Pow2(b + c));
    }
  }

  /** Never no outcome is extreme, and all of them are for a gap of at most 1. */
  lemma ExtremeRange(d: nat, gap: nat)
    requires gap <= d && gap % 2 == d % 2
    ensures 0 < ExtremeWays(d, gap) <= Pow2(d)
    ensures ExtremeWays(d, gap) == Pow2(d) <==> gap <= 1
  {
    ExtremeAtMostAll(d, gap);
    WaysMonotone(d, 0, Never(), AsLopsided(d, gap), d);
    if gap <= 1 {
      WaysTotal(d, 0, AsLopsided(d, gap));
    } else {
      WaysTotal(d, 0, Always());
      WaysMonotone(d, 0, AsLopsided(d, gap), Always(), d / 2);
    }
  }

  lemma ScaledOrder(p: real, q: real, n: real)
    requires n > 0.0
    ensures p < q <==> p * n < q * n
  {
    if p < q {
      PositiveGap(q - p, n);
    } else if q < p {
      PositiveGap(p - q, n);
    }
    assert (q - p) * n == q * n - p * n && (p - q) * n == p * n - q * n;
  }

  lemma PositiveGap(gap: real, n: real)
    requires gap > 0.0 && n > 0.0
    ensures gap * n > 0.0
  {
  }

  lemma RatioOrder(p: real, a: nat, q: real, b: nat, total: nat)
    requires total > 0 && p * total as real == a as real && q * total as real == b as real
    ensures p <= q <==> a <= b
    ensures q <= p <==> b <= a
  {
    ScaledOrder(p, q, total as real);
    ScaledOrder(q, p, total as real);
  }

  lemma CappedOrder(a: nat, b: nat, total: nat)
    requires total > 0
    ensures Capped(a, total) <= Capped(b, total) <==> Min(a, total) <= Min(b, total)
  {
    CappedTimesTotal(a, total);
    CappedTimesTotal(b, total);
    RatioOrder(Capped(a, total), Min(a, total), Capped(b, total), Min(b, total), total);
  }

  lemma CappedRange(a: nat, total: nat)
    requires total > 0
    ensures 0.0 <= Capped(a, total) <= 1.0
    ensures Capped(a, total) > 0.0 <==> a > 0
    ensures Capped(a, total) == 1.0 <==> a >= total
  {
    CappedTimesTotal(a, total);
    RatioOrder(Capped(a, total), Min(a, total), 1.0, total, total);
    RatioOrder(0.0, 0, Capped(a, total), Min(a, total), total);
  }

  /** A p-value is a probability, never zero, and 1 exactly when the counts differ by at most 1. */
  lemma PValueRange(b: nat, c: nat)
    ensures 0.0 < PValue(b, c) <= 1.0
    ensures PValue(b, c) == 1.0 <==> Gap(b, c) <= 1
  {
    if b + c > 0 {
      ExtremeCount(b, c);
      ExtremeRange(b + c, Gap(b, c));
      CappedRange(2 * Tail(b + c, Min(b, c)), Pow2(b + c));
    }
  }

  lemma TailsMonotone(b: nat, c: nat, b': nat, c': nat)
    requires 0 < b + c == b' + c' && Gap(b, c) <= Gap(b', c')
    ensures Min(2 * Tail(b' + c', Min(b', c')), Pow2(b' + c')) <= Min(2 * Tail(b + c, Min(b, c)), Pow2(b + c))
  {
    ExtremeCount(b, c);
    ExtremeCount(b', c');
    WaysMonotone(b + c, 0, AsLopsided(b + c, Gap(b', c')), AsLopsided(b + c, Gap(b, c)), 0);
  }

  /** For the same number of discordant pairs, more imbalance never raises the p-value. */
  lemma PValueMonotone(b: nat, c: nat, b': nat, c': nat)
    requires b + c == b' + c' && Gap(b, c) <= Gap(b', c')
    ensures PValue(b', c') <= PValue(b, c)
  {
    if b + c > 0 {
      TailsMonotone(b, c, b', c');
      CappedOrder(2 * Tail(b + c, Min(b', c')), 2 * Tail(b + c, Min(b, c)), Pow2(b + c));
    }
  }

  // ----- The comparison of two maps -----

  ghost function Flagged(m: map<string, bool>): set<string> {
    set id | id in m && m[id]
  }

  ghost function Differing(first: map<string, bool>, second: map<string, bool>): set<string> {
    set id | id in first && id in second && first[id] != second[id]
  }

  lemma CountsMeaning(first: map<string, bool>, second: map<string, bool>)
    requires first.Keys == second.Keys
    ensures |Only(first, second)| - |Only(second, first)| == |Flagged(first)| - |Flagged(second)|
    ensures |Only(first, second)| + |Only(second, first)| == |Differing(first, second)| <= |first|
  {
    var both := set id | id in first && first[id] && second[id];
    assert Flagged(first) == Only(first, second) + both;
    assert Flagged(second) == Only(second, first) + both;
    assert Differing(first, second) == Only(first, second) + Only(second, first);
    SubsetSize(Differing(first, second), first.Keys);
  }

  /** Swapping the two counts leaves the p-value alone. */
  lemma PValueSymmetric(b: nat, c: nat)
    ensures PValue(b, c) == PValue(c, b)
  {
    PValueMonotone(b, c, c, b);
    PValueMonotone(c, b, b, c);
  }

  lemma OnlyIsDifference(first: map<string, bool>, second: map<string, bool>)
    requires first.Keys == second.Keys
    ensures Only(first, second) == Flagged(first) - Flagged(second)
  {
  }

  /** The comparison succeeds exactly on equal id sets. It reports how many ids only one of the
      maps flags, and the share of all ways to direct the ids that changed that are at least as
      lopsided; swapping the maps only swaps the counts. */
  lemma ComparisonMeaning(first: map<string, bool>, second: map<string, bool>)
    ensures PairedMcnemarExact(first, second).Ok? <==> first.Keys == second.Keys
    ensures first.Keys == second.Keys ==>
              var r := PairedMcnemarExact(first, second).value;
              && r.totalPairs == |first|
              && r.onlyFirst == |Flagged(first) - Flagged(second)|
              && r.onlySecond == |Flagged(second) - Flagged(first)|
              && r.onlyFirst - r.onlySecond == |Flagged(first)| - |Flagged(second)|
              && r.onlyFirst + r.onlySecond == r.discordantPairs == |Differing(first, second)| <= r.totalPairs
              && r.exactPValue * Pow2(r.discordantPairs) as real ==
                 ExtremeWays(r.discordantPairs, Gap(r.onlyFirst, r.onlySecond)) as real
              && 0.0 < r.exactPValue <= 1.0
              && PairedMcnemarExact(second, first)
                 == Ok(r.(onlyFirst := r.onlySecond, onlySecond := r.onlyFirst))
  {
    if first.Keys == second.Keys {
      CountsMeaning(first, second);
      OnlyIsDifference(first, second);
      OnlyIsDifference(second, first);
      PValueIsExactTest(|Only(first, second)|, |Only(second, first)|);
      PValueRange(|Only(first, second)|, |Only(second, first)|);
      hide PValue, ExtremeWays;
      PValueSymmetric(|Only(first, second)|, |Only(second, first)|);
      assert |first| == |first.Keys| == |second.Keys| == |second|;
    }
  }
}
