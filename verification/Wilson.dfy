/** The Wilson score interval (src/release_sentinel/coverage/assessment.py), over the reals. */
module Wilson {
  import opened Wrappers

  datatype Interval = Interval(low: real, high: real)

  datatype WilsonError = CountsOutOfRange

  /** What is assumed of `math.sqrt`. */
  ghost predicate IsSquareRoot(sqrt: real -> real) {
    forall x :: x >= 0.0 ==> sqrt(x) >= 0.0 && sqrt(x) * sqrt(x) == x
  }

  function Max(a: real, b: real): real { if a >= b then a else b }

  function Min(a: real, b: real): real { if a <= b then a else b }

  /** The value under the root. */
  function Radicand(pHat: real, z2: real, total: real): real
    requires total > 0.0
  {
    pHat * (1.0 - pHat) / total + z2 / (4.0 * total * total)
  }

  /** The interval before it is clamped to [0, 1]. */
  function Unclamped(pHat: real, total: real, z: real, sqrt: real -> real): Interval
    requires total > 0.0
  {
    var z2 := z * z;
    var denominator := 1.0 + z2 / total;
    DenominatorPositive(z, total);
    var center := (pHat + z2 / (2.0 * total)) / denominator;
    var margin := z * sqrt(Radicand(pHat, z2, total)) / denominator;
    Interval(center - margin, center + margin)
  }

  function WilsonInterval(successes: int, total: int, z: real, sqrt: real -> real):
    Result<Option<Interval>, WilsonError>
  {
    if successes < 0 || total < 0 || successes > total then Err(CountsOutOfRange)
    else if total == 0 then Ok(None)
    else
      var i := Unclamped(successes as real / total as real, total as real, z, sqrt);
      Ok(Some(Interval(Max(0.0, i.low), Min(1.0, i.high))))
  }

  /** The counts must make sense, and nothing observed gives no interval. */
  lemma WilsonErrors(successes: int, total: int, z: real, sqrt: real -> real)
    ensures WilsonInterval(successes, total, z, sqrt).Err? <==> !(0 <= successes <= total)
    ensures WilsonInterval(successes, total, z, sqrt) == Ok(None) <==> successes == total == 0
  {
  }

  // ----- Real arithmetic -----

  lemma Product(a: real, b: real)
    ensures a >= 0.0 && b >= 0.0 ==> a * b >= 0.0
    ensures a > 0.0 && b > 0.0 ==> a * b > 0.0
  {
  }

  lemma Square(x: real)
    ensures x * x >= 0.0
  {
    if x < 0.0 {
      assert x * x == (-x) * (-x);
    }
  }

  lemma DenominatorPositive(z: real, total: real)
    requires total > 0.0
    ensures z * z / total >= 0.0
  {
    Square(z);
    var q := z * z / total;
    assert q * total == z * z;
    CancelOrder(0.0, q, total, 0.0, z * z);
  }

  /** Numbers order like their products with a positive factor. */
  lemma CancelOrder(a: real, b: real, d: real, ad: real, bd: real)
    requires d > 0.0 && a * d == ad && b * d == bd
    ensures a <= b <==> ad <= bd
    ensures a == b <==> ad == bd
  {
    if a < b {
      assert a * d < b * d;
    } else if b < a {
      assert b * d < a * d;
    }
  }

  /** On nonnegative numbers squares order like their roots. */
  lemma SquareOrder(a: real, b: real, rest: real)
    requires b >= 0.0 && rest >= 0.0 && b * b - a * a == rest
    ensures a <= b
  {
    var x, y := a - b, a + b;
    assert x * y == -rest;
    Product(x, y);
  }

  lemma SameRoot(a: real, b: real)
    requires a >= 0.0 && b >= 0.0 && a * a == b * b
    ensures a == b
  {
    SquareOrder(a, b, 0.0);
    SquareOrder(b, a, 0.0);
  }

  lemma ProductZero(a: real, b: real)
    ensures a * b == 0.0 <==> a == 0.0 || b == 0.0
  {
    if a != 0.0 && b != 0.0 {
      assert b == a * b / a;
    }
  }

  // ----- The interval in terms of h = k/n and c = z²/n -----

  /** `m` is the half-width of the interval times d = 1 + c. */
  ghost predicate HalfWidth(h: real, c: real, m: real) {
    0.0 <= h <= 1.0 && c >= 0.0 && m >= 0.0 && m * m == c * (h * (1.0 - h)) + c * c / 4.0
  }

  /** `low` and `high` are A - m and A + m over d = 1 + c, where A = h + c/2. */
  ghost predicate Endpoints(h: real, c: real, d: real, m: real, i: Interval) {
    && c >= 0.0 && d == 1.0 + c
    && i.low * d == h + c / 2.0 - m
    && i.high * d == h + c / 2.0 + m
  }

  /** z²·radicand, with the radicand's two quotients named. */
  lemma RootSquared(v: real, n: real, z2: real, c: real, vn: real, q: real)
    requires n > 0.0 && c * n == z2 && vn * n == v && q * (4.0 * n * n) == z2
    ensures z2 * (vn + q) == c * v + c * c / 4.0
  {
    assert (4.0 * q * n) * n == c * n;
    CancelOrder(4.0 * q * n, c, n, z2, z2);
    assert z2 * vn == c * (vn * n);
    assert z2 * q == c * (q * n);
    assert c * (q * n) == c * c / 4.0;
  }

  lemma FourSquares(n: real) returns (d: real)
    requires n > 0.0
    ensures d > 0.0 && d == 4.0 * n * n
  {
    var square := PositiveProduct(n, n);
    d := 4.0 * square;
  }

  lemma PositiveProduct(a: real, b: real) returns (p: real)
    requires a > 0.0 && b > 0.0
    ensures p > 0.0 && p == a * b
  {
    Product(a, b);
    p := a * b;
  }

  lemma QuotientOf(x: real, d: real) returns (q: real)
    requires d > 0.0 && x >= 0.0
    ensures q == x / d && q * d == x && q >= 0.0
  {
    q := x / d;
    CancelOrder(0.0, q, d, 0.0, x);
  }

  lemma RootSquaredQuotients(v: real, n: real, z2: real, d: real)
    requires n > 0.0 && v >= 0.0 && z2 >= 0.0 && d > 0.0 && d == 4.0 * n * n
    ensures v / n + z2 / d >= 0.0
    ensures z2 * (v / n + z2 / d) == z2 / n * v + z2 / n * (z2 / n) / 4.0
  {
    var c := QuotientOf(z2, n);
    var vn := QuotientOf(v, n);
    var q := QuotientOf(z2, d);
    RootSquared(v, n, z2, c, vn, q);
  }

  lemma RadicandParts(h: real, n: real, z: real)
    requires n > 0.0 && 0.0 <= h <= 1.0
    ensures Radicand(h, z * z, n) >= 0.0
    ensures var c := z * z / n;
            z * z * Radicand(h, z * z, n) == c * (h * (1.0 - h)) + c * c / 4.0
  {
    Square(z);
    Product(h, 1.0 - h);
    var d := FourSquares(n);
    RootSquaredQuotients(h * (1.0 - h), n, z * z, d);
  }

  lemma HalfWidthOf(h: real, n: real, z: real, root: real)
    requires n > 0.0 && 0.0 <= h <= 1.0 && z >= 0.0
    requires root >= 0.0 && root * root == Radicand(h, z * z, n)
    ensures HalfWidth(h, z * z / n, z * root)
  {
    RadicandParts(h, n, z);
    DenominatorPositive(z, n);
    Product(z, root);
    assert (z * root) * (z * root) == z * z * (root * root);
  }

  lemma HalfOfQuotient(x: real, n: real)
    requires n > 0.0
    ensures x / (2.0 * n) == x / n / 2.0
  {
    var q := x / (2.0 * n);
    assert q * (2.0 * n) == x;
    CancelOrder(2.0 * q, x / n, n, x, x);
  }

  lemma EndpointsTimesDenominator(a: real, m: real, d: real)
    requires d > 0.0
    ensures (a / d - m / d) * d == a - m
    ensures (a / d + m / d) * d == a + m
  {
    var x, y := a / d, m / d;
    assert x * d == a && y * d == m;
  }

  lemma QuotientEndpoints(h: real, n: real, z2: real, m: real, d: real)
    requires n > 0.0 && z2 / n >= 0.0 && d == 1.0 + z2 / n
    ensures var centre := (h + z2 / (2.0 * n)) / d;
            Endpoints(h, z2 / n, d, m, Interval(centre - m / d, centre + m / d))
  {
    HalfOfQuotient(z2, n);
    EndpointsTimesDenominator(h + z2 / n / 2.0, m, d);
  }

  lemma UnclampedScaled(h: real, n: real, z: real, sqrt: real -> real) returns (m: real)
    requires n > 0.0 && 0.0 <= h <= 1.0 && z >= 0.0 && IsSquareRoot(sqrt)
    ensures var c := z * z / n;
            HalfWidth(h, c, m) && Endpoints(h, c, 1.0 + c, m, Unclamped(h, n, z, sqrt))
  {
    hide Radicand, HalfWidth, Endpoints;
    RadicandParts(h, n, z);
    var root := sqrt(Radicand(h, z * z, n));
    m := z * root;
    HalfWidthOf(h, n, z, root);
    DenominatorPositive(z, n);
    QuotientEndpoints(h, n, z * z, m, 1.0 + z * z / n);
  }

  /** The half-width is at most the distance of the centre from 0. */
  lemma HalfWidthBelowCentre(h: real, c: real, m: real)
    requires HalfWidth(h, c, m)
    ensures m <= h + c / 2.0
  {
    var a := h + c / 2.0;
    Product(h, h);
    Product(c, h * h);
    assert a * a - m * m == h * h + c * (h * h);
    SquareOrder(m, a, h * h + c * (h * h));
  }

  /** The half-width is at least the distance of the centre from h. */
  lemma HalfWidthCoversRate(h: real, c: real, m: real)
    requires HalfWidth(h, c, m)
    ensures m >= c * h - c / 2.0
  {
    var e := c * h - c / 2.0;
    var v := h * (1.0 - h);
    Product(h, 1.0 - h);
    Product(c, v);
    Product(c, c * v);
    assert m * m - e * e == c * v + c * (c * v);
    SquareOrder(e, m, c * v + c * (c * v));
  }

  lemma HalfWidthMirror(h: real, c: real, m: real)
    requires HalfWidth(h, c, m)
    ensures HalfWidth(1.0 - h, c, m)
  {
    assert (1.0 - h) * (1.0 - (1.0 - h)) == h * (1.0 - h);
  }

  // ----- The interval -----

  /** `p` lies exactly z standard errors, computed at `p`, from h: (p - h)² = z²·p(1 - p)/n. */
  ghost predicate ScoreEquation(p: real, h: real, c: real) {
    (p - h) * (p - h) == c * (p * (1.0 - p))
  }

  ghost predicate RootsAre(h: real, c: real, i: Interval) {
    forall p :: ScoreEquation(p, h, c) <==> p == i.low || p == i.high
  }

  lemma ScorePolynomial(p: real, h: real, c: real, m: real, x: real)
    requires m * m == c * (h * (1.0 - h)) + c * c / 4.0 && x == (1.0 + c) * p
    ensures (1.0 + c) * ((p - h) * (p - h) - c * (p * (1.0 - p)))
            == (x - (h + c / 2.0) - m) * (x - (h + c / 2.0) + m)
  {
    var d, a := 1.0 + c, h + c / 2.0;
    assert (x - a - m) * (x - a + m) == (x - a) * (x - a) - m * m;
    assert (x - a) * (x - a) == x * x - 2.0 * a * x + a * a;
    assert a * a - m * m == d * (h * h);
    assert (p - h) * (p - h) - c * (p * (1.0 - p)) == d * (p * p) - 2.0 * a * p + h * h;
    assert x * x == d * (d * (p * p));
    assert 2.0 * a * x == d * (2.0 * a * p);
  }

  lemma RootsOfFactors(d: real, residue: real, x: real, a: real, m: real)
    requires d > 0.0 && d * residue == (x - a - m) * (x - a + m)
    ensures residue == 0.0 <==> x == a + m || x == a - m
  {
    ProductZero(d, residue);
    ProductZero(x - a - m, x - a + m);
  }

  /** The endpoints are the two roots of the score equation, and it has no others. */
  lemma EndpointsAreTheRoots(p: real, h: real, c: real, d: real, m: real, i: Interval)
    requires HalfWidth(h, c, m) && Endpoints(h, c, d, m, i)
    ensures ScoreEquation(p, h, c) <==> p == i.low || p == i.high
  {
    var residue := (p - h) * (p - h) - c * (p * (1.0 - p));
    ScorePolynomial(p, h, c, m, d * p);
    hide HalfWidth, Endpoints;
    RootsOfFactors(d, residue, d * p, h + c / 2.0, m);
    EndpointsAt(p, h, c, d, m, i, d * p);
  }

  lemma EndpointsAt(p: real, h: real, c: real, d: real, m: real, i: Interval, x: real)
    requires Endpoints(h, c, d, m, i) && x == d * p
    ensures p == i.low <==> x == h + c / 2.0 - m
    ensures p == i.high <==> x == h + c / 2.0 + m
  {
    CancelOrder(p, i.low, d, x, h + c / 2.0 - m);
    CancelOrder(p, i.high, d, x, h + c / 2.0 + m);
  }

  lemma HalfWidthBounds(h: real, c: real, m: real)
    requires HalfWidth(h, c, m)
    ensures m <= h + c / 2.0 && m <= 1.0 - h + c / 2.0
    ensures m >= c * h - c / 2.0 && m >= c / 2.0 - c * h
  {
    HalfWidthBelowCentre(h, c, m);
    HalfWidthCoversRate(h, c, m);
    HalfWidthMirror(h, c, m);
    HalfWidthBelowCentre(1.0 - h, c, m);
    HalfWidthCoversRate(1.0 - h, c, m);
  }

  lemma EndpointBounds(h: real, c: real, ch: real, d: real, m: real, i: Interval)
    requires Endpoints(h, c, d, m, i) && ch == c * h
    requires m <= h + c / 2.0 && m <= 1.0 - h + c / 2.0
    requires m >= ch - c / 2.0 && m >= c / 2.0 - ch
    ensures 0.0 <= i.low <= h <= i.high <= 1.0
  {
    var a := h + c / 2.0;
    CancelOrder(0.0, i.low, d, 0.0, a - m);
    CancelOrder(i.high, 1.0, d, a + m, d);
    CancelOrder(i.low, h, d, a - m, h + ch);
    CancelOrder(h, i.high, d, h + ch, a + m);
  }

  lemma RateInRange(successes: int, total: int)
    requires 0 <= successes <= total && total > 0
    ensures 0.0 <= successes as real / total as real <= 1.0
  {
    var q := successes as real / total as real;
    CancelOrder(0.0, q, total as real, 0.0, successes as real);
    CancelOrder(q, 1.0, total as real, successes as real, total as real);
  }

  lemma ScoreInterval(successes: int, total: int, z: real, sqrt: real -> real)
    requires 0 <= successes <= total && total > 0 && z >= 0.0 && IsSquareRoot(sqrt)
    ensures var h := successes as real / total as real;
            var i := Unclamped(h, total as real, z, sqrt);
            && WilsonInterval(successes, total, z, sqrt) == Ok(Some(i))
            && 0.0 <= i.low <= h <= i.high <= 1.0
            && RootsAre(h, z * z / total as real, i)
  {
    var n := total as real;
    var h, c := successes as real / n, z * z / n;
    RateInRange(successes, total);
    var m := UnclampedScaled(h, n, z, sqrt);
    var i := Unclamped(h, n, z, sqrt);
    HalfWidthBounds(h, c, m);
    EndpointBounds(h, c, c * h, 1.0 + c, m, i);
    forall p
      ensures ScoreEquation(p, h, c) <==> p == i.low || p == i.high
    {
      EndpointsAreTheRoots(p, h, c, 1.0 + c, m, i);
    }
  }

  lemma Negated(z: real, root: real, d: real)
    requires d > 0.0
    ensures (-z) * root / d == -(z * root / d)
  {
    assert (-z) * root == -(z * root);
    CancelOrder(-(z * root) / d, -(z * root / d), d, -(z * root), -(z * root));
  }

  /** A negative z reverses the endpoints. */
  lemma UnclampedNegated(h: real, n: real, z: real, sqrt: real -> real)
    requires n > 0.0
    ensures var i := Unclamped(h, n, z, sqrt); Unclamped(h, n, -z, sqrt) == Interval(i.high, i.low)
  {
    assert (-z) * (-z) == z * z;
    DenominatorPositive(z, n);
    Negated(z, sqrt(Radicand(h, z * z, n)), 1.0 + z * z / n);
  }

  /** For counts in range the clamps change nothing, the observed rate lies between the
      endpoints, which come in order unless z is negative, and these are exactly the solutions of
      the score equation. */
  lemma WilsonIsScoreInterval(successes: int, total: int, z: real, sqrt: real -> real)
    requires 0 <= successes <= total && total > 0 && IsSquareRoot(sqrt)
    ensures var h := successes as real / total as real;
            var i := Unclamped(h, total as real, z, sqrt);
            && WilsonInterval(successes, total, z, sqrt) == Ok(Some(i))
            && (z >= 0.0 ==> 0.0 <= i.low <= h <= i.high <= 1.0)
            && (z < 0.0 ==> 0.0 <= i.high <= h <= i.low <= 1.0)
            && RootsAre(h, z * z / total as real, i)
  {
    var h, n := successes as real / total as real, total as real;
    if z >= 0.0 {
      ScoreInterval(successes, total, z, sqrt);
    } else {
      var y := -z;
      ScoreInterval(successes, total, y, sqrt);
      UnclampedNegated(h, n, y, sqrt);
      SameSquare(y, z, n);
      assert -y == z;
      hide Unclamped, ScoreEquation;
      Reversed(h, z * z / n, Unclamped(h, n, y, sqrt));
    }
  }

  lemma SameSquare(y: real, z: real, n: real)
    requires y == -z && n > 0.0
    ensures y * y / n == z * z / n
  {
    assert y * y == z * z;
  }

  lemma Reversed(h: real, c: real, i: Interval)
    requires RootsAre(h, c, i)
    ensures RootsAre(h, c, Interval(i.high, i.low))
  {
  }

  lemma MirrorHalfWidth(h: real, c: real, m: real, m': real)
    requires HalfWidth(h, c, m) && HalfWidth(1.0 - h, c, m')
    ensures m == m'
  {
    HalfWidthMirror(h, c, m);
    SameRoot(m, m');
  }

  lemma MirrorEndpoints(h: real, c: real, d: real, m: real, i: Interval, i': Interval)
    requires Endpoints(h, c, d, m, i) && Endpoints(1.0 - h, c, d, m, i')
    ensures i' == Interval(1.0 - i.high, 1.0 - i.low)
  {
    var a := h + c / 2.0;
    CancelOrder(i'.low, 1.0 - i.high, d, d - a - m, d - a - m);
    CancelOrder(i'.high, 1.0 - i.low, d, d - a + m, d - a + m);
  }

  lemma ComplementRate(successes: int, total: int)
    requires total > 0
    ensures (total - successes) as real / total as real == 1.0 - successes as real / total as real
  {
    var n := total as real;
    var h := successes as real / n;
    assert h * n == successes as real;
    CancelOrder((total - successes) as real / n, 1.0 - h, n, (total - successes) as real, n - successes as real);
  }

  /** Counting failures instead of successes mirrors the interval at one half. */
  lemma WilsonMirror(successes: int, total: int, z: real, sqrt: real -> real)
    requires 0 <= successes <= total && total > 0 && IsSquareRoot(sqrt)
    ensures var i := WilsonInterval(successes, total, z, sqrt);
            i.Ok? && i.value.Some? &&
            WilsonInterval(total - successes, total, z, sqrt)
            == Ok(Some(Interval(1.0 - i.value.value.high, 1.0 - i.value.value.low)))
  {
    WilsonIsScoreInterval(successes, total, z, sqrt);
    WilsonIsScoreInterval(total - successes, total, z, sqrt);
    RateInRange(successes, total);
    ComplementRate(successes, total);
    var h, n := successes as real / total as real, total as real;
    if z >= 0.0 {
      UnclampedMirror(h, n, z, sqrt);
    } else {
      UnclampedMirror(h, n, -z, sqrt);
      hide Unclamped;
      UnclampedNegated(h, n, -z, sqrt);
      UnclampedNegated(1.0 - h, n, -z, sqrt);
      assert -(-z) == z;
    }
  }

  lemma UnclampedMirror(h: real, n: real, z: real, sqrt: real -> real)
    requires n > 0.0 && 0.0 <= h <= 1.0 && z >= 0.0 && IsSquareRoot(sqrt)
    ensures var i := Unclamped(h, n, z, sqrt);
            Unclamped(1.0 - h, n, z, sqrt) == Interval(1.0 - i.high, 1.0 - i.low)
  {
    var m := UnclampedScaled(h, n, z, sqrt);
    var m' := UnclampedScaled(1.0 - h, n, z, sqrt);
    var c := z * z / n;
    MirrorHalfWidth(h, c, m, m');
    MirrorEndpoints(h, c, 1.0 + c, m, Unclamped(h, n, z, sqrt), Unclamped(1.0 - h, n, z, sqrt));
  }

  /** If x·s = g·t with |t| at most s, then |x| is at most g. */
  lemma Dominated(x: real, g: real, s: real, t: real)
    requires g >= 0.0 && -s <= t <= s && -s <= x <= s && x * s == g * t
    ensures -g <= x <= g
  {
    if s > 0.0 {
      Product(g, s - t);
      Product(g, s + t);
      CancelOrder(x, g, s, g * t, g * s);
      CancelOrder(-g, x, s, -(g * s), g * t);
    }
  }

  ghost predicate IsProduct(p: real, a: real, b: real) {
    p == a * b
  }

  lemma ProductOf(a: real, b: real) returns (p: real)
    ensures IsProduct(p, a, b)
  {
    p := a * b;
  }

  lemma CentredBounds(h: real, c: real, ch: real, m: real)
    requires HalfWidth(h, c, m) && IsProduct(ch, c, h)
    ensures m >= 0.0 && m >= ch - c / 2.0 && m >= c / 2.0 - ch
  {
    HalfWidthBounds(h, c, m);
  }

  lemma SquaresDifference(h: real, h': real, c: real, ch: real, ch': real, m: real, m': real)
    requires HalfWidth(h, c, m) && HalfWidth(h', c, m') && IsProduct(ch, c, h) && IsProduct(ch', c, h')
    ensures (m' - m) * (m' + m) == (h' - h) * (c - ch - ch')
  {
    assert (m' - m) * (m' + m) == m' * m' - m * m;
    assert c * (h' * (1.0 - h')) - c * (h * (1.0 - h)) == (h' - h) * (c - c * h - c * h');
  }

  /** The half-width changes at most as much as h does. */
  lemma HalfWidthChange(h: real, h': real, c: real, ch: real, ch': real, m: real, m': real)
    requires h <= h' && (m' - m) * (m' + m) == (h' - h) * (c - ch - ch')
    requires m >= 0.0 && m' >= 0.0
    requires m >= ch - c / 2.0 && m >= c / 2.0 - ch
    requires m' >= ch' - c / 2.0 && m' >= c / 2.0 - ch'
    ensures -(h' - h) <= m' - m <= h' - h
  {
    Dominated(m' - m, h' - h, m' + m, c - ch - ch');
  }

  lemma EndpointsMonotone(h: real, h': real, c: real, d: real, m: real, m': real, i: Interval, i': Interval)
    requires -(h' - h) <= m' - m <= h' - h
    requires Endpoints(h, c, d, m, i) && Endpoints(h', c, d, m', i')
    ensures i.low <= i'.low && i.high <= i'.high
  {
    CancelOrder(i.low, i'.low, d, h + c / 2.0 - m, h' + c / 2.0 - m');
    CancelOrder(i.high, i'.high, d, h + c / 2.0 + m, h' + c / 2.0 + m');
  }

  lemma HalfWidthsClose(h: real, h': real, c: real, m: real, m': real)
    requires h <= h' && HalfWidth(h, c, m) && HalfWidth(h', c, m')
    ensures -(h' - h) <= m' - m <= h' - h
  {
    hide HalfWidth, IsProduct;
    var ch := ProductOf(c, h);
    var ch' := ProductOf(c, h');
    CentredBounds(h, c, ch, m);
    CentredBounds(h', c, ch', m');
    SquaresDifference(h, h', c, ch, ch', m, m');
    HalfWidthChange(h, h', c, ch, ch', m, m');
  }

  lemma UnclampedMonotone(h: real, h': real, n: real, z: real, sqrt: real -> real)
    requires n > 0.0 && 0.0 <= h <= h' <= 1.0 && z >= 0.0 && IsSquareRoot(sqrt)
    ensures var i, j := Unclamped(h, n, z, sqrt), Unclamped(h', n, z, sqrt);
            i.low <= j.low && i.high <= j.high
  {
    var m := UnclampedScaled(h, n, z, sqrt);
    var m' := UnclampedScaled(h', n, z, sqrt);
    var c := z * z / n;
    HalfWidthsClose(h, h', c, m, m');
    EndpointsMonotone(h, h', c, 1.0 + c, m, m', Unclamped(h, n, z, sqrt), Unclamped(h', n, z, sqrt));
  }

  lemma RateMonotone(fewer: int, more: int, total: int)
    requires fewer <= more && total > 0
    ensures fewer as real / total as real <= more as real / total as real
  {
    var n := total as real;
    CancelOrder(fewer as real / n, more as real / n, n, fewer as real, more as real);
  }

  /** More successes never lower either endpoint. */
  lemma WilsonMonotone(fewer: int, more: int, total: int, z: real, sqrt: real -> real)
    requires 0 <= fewer <= more <= total && total > 0 && IsSquareRoot(sqrt)
    ensures var i := WilsonInterval(fewer, total, z, sqrt);
            var j := WilsonInterval(more, total, z, sqrt);
            && i.Ok? && i.value.Some? && j.Ok? && j.value.Some?
            && i.value.value.low <= j.value.value.low
            && i.value.value.high <= j.value.value.high
  {
    WilsonIsScoreInterval(fewer, total, z, sqrt);
    WilsonIsScoreInterval(more, total, z, sqrt);
    RateInRange(fewer, total);
    RateInRange(more, total);
    RateMonotone(fewer, more, total);
    var h, h', n := fewer as real / total as real, more as real / total as real, total as real;
    if z >= 0.0 {
      UnclampedMonotone(h, h', n, z, sqrt);
    } else {
      UnclampedMonotone(h, h', n, -z, sqrt);
      hide Unclamped;
      UnclampedNegated(h, n, -z, sqrt);
      UnclampedNegated(h', n, -z, sqrt);
      assert -(-z) == z;
    }
  }
}
