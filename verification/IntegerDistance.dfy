/** Distances between arena positions, rounded to the nearest whole unit by integer arithmetic alone. */
module IntegerDistance {
  import opened Prelude

  const I32_MAX: nat := 2147483647

  function SaturatingMul(a: u32, b: u32): u32 { Min(a * b, U32_MAX) }

  function SaturatingSub(a: u32, b: u32): u32 { Max(a - b, 0) }

  // ----- the root, independently of the search

  /** The largest number whose square is at most `v`, found by counting up. */
  ghost function FloorRoot(v: nat): (r: nat)
    ensures r * r <= v < (r + 1) * (r + 1)
  {
    if v == 0 then 0 else
      var before := FloorRoot(v - 1);
      if (before + 1) * (before + 1) <= v then StepUp(before); before + 1 else before
  }

  lemma StepUp(r: nat)
    ensures (r + 1) * (r + 1) + 1 < (r + 2) * (r + 2)
  {
  }

  /** The whole number nearest to the square root of `v`; a root is never half-way between two. */
  ghost function NearestRoot(v: nat): nat {
    var f := FloorRoot(v);
    if v <= f * f + f then f else f + 1
  }

  /** `r` is within one half of the root of `v`: `r - 1/2 < sqrt(v) < r + 1/2`, multiplied out. */
  ghost predicate WithinHalf(r: nat, v: nat) { (r > 0 ==> r * r - r + 1 <= v) && v <= r * r + r }

  lemma NearestIsWithinHalf(v: nat)
    ensures WithinHalf(NearestRoot(v), v)
  {
    var f := FloorRoot(v);
    assert (f + 1) * (f + 1) == f * f + 2 * f + 1;
  }

  lemma Grows(r: nat, s: nat)
    requires r < s
    ensures r * r + r <= s * s - s
  {
    var k := s - r;
    assert s * s - s == (r + k) * (r + k - 1) == r * r + r * (2 * k - 1) + k * (k - 1);
    assert k * (k - 1) >= 0;
    assert r * (2 * k - 1) >= r;
  }

  /** Only one number is within one half, and a larger value has a root at least as large. */
  lemma WithinHalfIsMonotone(r: nat, v: nat, s: nat, w: nat)
    requires WithinHalf(r, v) && WithinHalf(s, w) && v <= w
    ensures r <= s
  {
    if s < r {
      Grows(s, r);
    }
  }

  lemma NearestIsUnique(r: nat, v: nat)
    requires WithinHalf(r, v)
    ensures r == NearestRoot(v)
  {
    NearestIsWithinHalf(v);
    WithinHalfIsMonotone(r, v, NearestRoot(v), v);
    WithinHalfIsMonotone(NearestRoot(v), v, r, v);
  }

  // ----- the binary search

  lemma SquareMono(a: nat, b: nat)
    requires a <= b
    ensures a * a <= b * b
  {
    assert b * b - a * a == (b - a) * (b + a);
  }

  /** Candidates of the search fit 16 bits, so their squares never saturate; the square one past the last may. */
  lemma SquareFits(a: nat)
    ensures a <= U16_MAX ==> SaturatingMul(a, a) == a * a
    ensures a == U16_MAX + 1 ==> a * a == U32_MAX + 1
  {
    if a <= U16_MAX {
      SquareMono(a, U16_MAX);
    }
  }

  /** The search keeps `low` at or below the root and `high` at or above its floor. */
  method IntegerSqrtRounded(value: u32) returns (r: u16)
    ensures r == Min(NearestRoot(value), U16_MAX)
  {
    hide NearestRoot;
    var low: u32, high: u32 := 0, Min(value, U16_MAX);
    StartsAbove(value);
    while low < high
      invariant 0 <= low <= high <= U16_MAX
      invariant low * low <= value < (high + 1) * (high + 1)
    {
      var mid: u32 := low + (high - low + 1) / 2;
      SquareFits(mid);
      if SaturatingMul(mid, mid) <= value {
        low := mid;
      } else {
        high := mid - 1;
      }
    }
    var lower: u32, upper: u32 := low, Min(low + 1, U32_MAX);
    var rounded := if SaturatingSub(SaturatingMul(upper, upper), value)
                        < SaturatingSub(value, SaturatingMul(lower, lower)) then upper else lower;
    RoundsToNearest(value, low);
    r := if rounded <= U16_MAX then rounded else U16_MAX;
  }

  lemma StartsAbove(value: u32)
    ensures value < (Min(value, U16_MAX) + 1) * (Min(value, U16_MAX) + 1)
  {
    if value <= U16_MAX {
      assert (value + 1) * (value + 1) == value * value + 2 * value + 1;
    } else {
      SquareFits(U16_MAX + 1);
    }
  }

  /** The final choice between the two neighbours, saturation included, is the nearest root after capping. */
  lemma RoundsToNearest(value: u32, low: nat)
    requires low <= U16_MAX && low * low <= value < (low + 1) * (low + 1)
    ensures var up := SaturatingSub(SaturatingMul(low + 1, low + 1), value)
                        < SaturatingSub(value, SaturatingMul(low, low));
            Min(if up then low + 1 else low, U16_MAX) == Min(NearestRoot(value), U16_MAX)
  {
    hide NearestRoot;
    SquareFits(low);
    assert (low + 1) * (low + 1) == low * low + 2 * low + 1;
    var r := if value <= low * low + low then low else low + 1;
    NearestIsUnique(r, value);
    if low < U16_MAX {
      SquareFits(low + 1);
    }
  }

  /** What the search returns, without the root: the nearest integer wherever the cap does not bite. */
  lemma CappedRoot(value: u32, r: u16)
    requires r == Min(NearestRoot(value), U16_MAX)
    ensures r == 0 <==> value == 0
    ensures 0 < r < U16_MAX ==> r * r - r + 1 <= value <= r * r + r
    ensures r == U16_MAX <==> value > (U16_MAX - 1) * (U16_MAX - 1) + (U16_MAX - 1)
  {
    hide NearestRoot;
    NearestIsWithinHalf(value);
    var n := NearestRoot(value);
    if n >= U16_MAX {
      Grows(U16_MAX - 1, n);
    } else if n < U16_MAX - 1 {
      Grows(n, U16_MAX - 1);
    }
  }

  // ----- distances

  /** A square, named so that the laws below can be about squares rather than products. */
  function Square(a: int): (s: nat)
    ensures s == 0 <==> a == 0
  {
    a * a
  }

  function DistanceSq(x0: i16, y0: i16, x1: i16, y1: i16): nat { Square(x1 - x0) + Square(y1 - y0) }

  /** Both squares and their sum stay inside the source's 32-bit signed arithmetic. */
  predicate Fits(x0: i16, y0: i16, x1: i16, y1: i16) { DistanceSq(x0, y0, x1, y1) <= I32_MAX }

  ghost function Distance(x0: i16, y0: i16, x1: i16, y1: i16): nat { NearestRoot(DistanceSq(x0, y0, x1, y1)) }

  /** Points no further apart than 32767 on either axis are always close enough. */
  lemma NearPointsFit(x0: i16, y0: i16, x1: i16, y1: i16)
    requires Abs(x1 - x0) <= 32767 && Abs(y1 - y0) <= 32767
    ensures Fits(x0, y0, x1, y1)
  {
    SquareOfAbs(x1 - x0);
    SquareOfAbs(y1 - y0);
    SquareMono(Abs(x1 - x0), 32767);
    SquareMono(Abs(y1 - y0), 32767);
  }

  lemma SquareOfAbs(a: int)
    ensures Square(a) == Abs(a) * Abs(a) == Square(-a)
  {
  }

  method DistanceBetween(x0: i16, y0: i16, x1: i16, y1: i16) returns (d: u16)
    requires Fits(x0, y0, x1, y1)
    ensures d == Distance(x0, y0, x1, y1) && d < U16_MAX
  {
    d := IntegerSqrtRounded(DistanceSq(x0, y0, x1, y1));
    CappedRoot(DistanceSq(x0, y0, x1, y1), d);
  }

  lemma DistanceIsSymmetric(x0: i16, y0: i16, x1: i16, y1: i16)
    ensures Distance(x0, y0, x1, y1) == Distance(x1, y1, x0, y0)
  {
    SquareOfAbs(x1 - x0);
    SquareOfAbs(y1 - y0);
  }

  lemma ZeroMeansSamePoint(x0: i16, y0: i16, x1: i16, y1: i16)
    ensures Distance(x0, y0, x1, y1) == 0 <==> (x0 == x1 && y0 == y1)
  {
    var v := DistanceSq(x0, y0, x1, y1);
    hide NearestRoot;
    NearestIsWithinHalf(v);
    if NearestRoot(v) != 0 {
      var r := NearestRoot(v);
      assert r * r - r == r * (r - 1);
    }
  }

  /** The inner product of two vectors is bounded by their lengths. */
  lemma CauchySchwarz(a: int, b: int, c: int, d: int)
    ensures Square(a * c + b * d) <= (Square(a) + Square(b)) * (Square(c) + Square(d))
  {
    var cross := a * d - b * c;
    assert (a * a + b * b) * (c * c + d * d) - (a * c + b * d) * (a * c + b * d) == cross * cross by {
      Lagrange(a, b, c, d);
    }
    assert cross * cross == Square(cross);
  }

  lemma Lagrange(a: int, b: int, c: int, d: int)
    ensures (a * a + b * b) * (c * c + d * d) - (a * c + b * d) * (a * c + b * d) == (a * d - b * c) * (a * d - b * c)
  {
  }

  /** An inner product of vectors whose lengths round to `r` and `s` is below the product of `r + 1/2` and `s + 1/2`. */
  lemma InnerProductBelow(p: int, u: nat, v: nat, r: nat, s: nat)
    requires Square(p) <= u * v && u <= r * r + r && v <= s * s + s
    ensures 2 * p <= 2 * (r * s) + r + s
  {
    var a, b := 2 * r + 1, 2 * s + 1;
    Halves(r, s);
    Halves(r, r);
    Halves(s, s);
    BelowInSquares(p, u, v, a, b);
    if 2 * p > 2 * (r * s) + r + s {
      SquareMono(a * b, 4 * p);
    }
  }

  lemma Halves(r: nat, s: nat)
    ensures (2 * r + 1) * (2 * s + 1) == 4 * (r * s) + 2 * r + 2 * s + 1
  {
  }

  lemma BelowInSquares(p: int, u: nat, v: nat, a: nat, b: nat)
    requires Square(p) <= u * v && 4 * u < a * a && 4 * v < b * b
    ensures (4 * p) * (4 * p) < (a * b) * (a * b)
  {
    ProductBelow(4 * u, 4 * v, a * a, b * b);
    Regroup(a, b);
    assert (4 * p) * (4 * p) == 16 * (p * p);
    assert (4 * u) * (4 * v) == 16 * (u * v);
  }

  lemma Regroup(a: int, b: int)
    ensures (a * b) * (a * b) == (a * a) * (b * b)
  {
  }

  lemma ProductBelow(u: nat, v: nat, x: nat, y: nat)
    requires u < x && v < y
    ensures u * v < x * y
  {
    assert u * v <= u * y;
    assert u * y < x * y;
  }

  /** Going through a third point is never shorter by more than one unit. */
  lemma TriangleWithinOne(x0: i16, y0: i16, x1: i16, y1: i16, x2: i16, y2: i16)
    ensures Distance(x0, y0, x2, y2) <= Distance(x0, y0, x1, y1) + Distance(x1, y1, x2, y2) + 1
  {
    hide NearestRoot, FloorRoot;
    var a, b, c, d := x1 - x0, y1 - y0, x2 - x1, y2 - y1;
    var u, v, w := DistanceSq(x0, y0, x1, y1), DistanceSq(x1, y1, x2, y2), DistanceSq(x0, y0, x2, y2);
    var r, s, t := NearestRoot(u), NearestRoot(v), NearestRoot(w);
    NearestIsWithinHalf(u);
    NearestIsWithinHalf(v);
    NearestIsWithinHalf(w);
    CauchySchwarz(a, b, c, d);
    var p := a * c + b * d;
    InnerProductBelow(p, u, v, r, s);
    SquareOfSum(a, c);
    SquareOfSum(b, d);
    assert w == u + v + 2 * p;
    SumOfRoots(w, r, s, t);
  }

  lemma SquareOfSum(a: int, c: int)
    ensures Square(a + c) == Square(a) + Square(c) + 2 * (a * c)
  {
  }

  lemma SumOfRoots(w: nat, r: nat, s: nat, t: nat)
    requires WithinHalf(t, w) && w <= r * r + r + s * s + s + 2 * (r * s) + r + s
    ensures t <= r + s + 1
  {
    var k := r + s;
    assert k * k == r * r + s * s + 2 * (r * s);
    assert (k + 1) * (k + 1) == k * k + 2 * k + 1;
    if t > k + 1 {
      Grows(k + 1, t);
    }
  }

  /** Exactly when the slack is not needed, told from the squares of the legs and their inner product. */
  lemma TriangleIffShortSum(x0: i16, y0: i16, x1: i16, y1: i16, x2: i16, y2: i16)
    ensures var r, s := Distance(x0, y0, x1, y1), Distance(x1, y1, x2, y2);
            var p := (x1 - x0) * (x2 - x1) + (y1 - y0) * (y2 - y1);
            && (Distance(x0, y0, x2, y2) <= r + s <==>
                DistanceSq(x0, y0, x1, y1) + DistanceSq(x1, y1, x2, y2) + 2 * p <= (r + s) * (r + s) + (r + s))
  {
    hide NearestRoot;
    var a, b, c, d := x1 - x0, y1 - y0, x2 - x1, y2 - y1;
    SquareOfSum(a, c);
    SquareOfSum(b, d);
    NearestIsAtMost(DistanceSq(x0, y0, x2, y2), Distance(x0, y0, x1, y1) + Distance(x1, y1, x2, y2));
  }

  /** The nearest root is at most `k` exactly for the values up to `k` and a half, squared. */
  lemma NearestIsAtMost(v: nat, k: nat)
    ensures NearestRoot(v) <= k <==> v <= k * k + k
  {
    hide NearestRoot;
    NearestIsWithinHalf(v);
    var r := NearestRoot(v);
    if r < k {
      Grows(r, k);
      assert k * k >= 0;
    } else if k < r {
      Grows(k, r);
    }
  }

  /** The exact triangle inequality holds whenever one leg was not rounded down. */
  lemma TriangleWithExactLeg(x0: i16, y0: i16, x1: i16, y1: i16, x2: i16, y2: i16)
    requires var r, s := Distance(x0, y0, x1, y1), Distance(x1, y1, x2, y2);
             DistanceSq(x0, y0, x1, y1) <= r * r || DistanceSq(x1, y1, x2, y2) <= s * s
    ensures Distance(x0, y0, x2, y2) <= Distance(x0, y0, x1, y1) + Distance(x1, y1, x2, y2)
  {
    hide NearestRoot, FloorRoot, DistanceSq;
    var u, v := DistanceSq(x0, y0, x1, y1), DistanceSq(x1, y1, x2, y2);
    var r, s := NearestRoot(u), NearestRoot(v);
    var p := (x1 - x0) * (x2 - x1) + (y1 - y0) * (y2 - y1);
    LegsBoundProduct(x0, y0, x1, y1, x2, y2);
    NearestIsWithinHalf(u);
    NearestIsWithinHalf(v);
    if u <= r * r {
      ExactLegBelow(p, u, v, r, s);
    } else {
      Swap(u, v);
      ExactLegBelow(p, v, u, s, r);
    }
    SquareOfTotal(r, s);
    TriangleIffShortSum(x0, y0, x1, y1, x2, y2);
  }

  /** A leg along an axis is not rounded. */
  lemma AxisLegIsExact(x0: i16, y0: i16, x1: i16, y1: i16)
    requires x0 == x1 || y0 == y1
    ensures Distance(x0, y0, x1, y1) == Abs(x1 - x0) + Abs(y1 - y0)
    ensures DistanceSq(x0, y0, x1, y1) == Distance(x0, y0, x1, y1) * Distance(x0, y0, x1, y1)
  {
    hide NearestRoot;
    SquareOfAbs(x1 - x0);
    SquareOfAbs(y1 - y0);
    NearestIsUnique(Abs(x1 - x0) + Abs(y1 - y0), DistanceSq(x0, y0, x1, y1));
  }

  /** The exact triangle inequality holds whenever one leg runs along an axis. */
  lemma TriangleAlongAxis(x0: i16, y0: i16, x1: i16, y1: i16, x2: i16, y2: i16)
    requires x0 == x1 || y0 == y1 || x1 == x2 || y1 == y2
    ensures Distance(x0, y0, x2, y2) <= Distance(x0, y0, x1, y1) + Distance(x1, y1, x2, y2)
  {
    hide Distance, DistanceSq;
    if x0 == x1 || y0 == y1 {
      AxisLegIsExact(x0, y0, x1, y1);
    } else {
      AxisLegIsExact(x1, y1, x2, y2);
    }
    TriangleWithExactLeg(x0, y0, x1, y1, x2, y2);
  }

  lemma Swap(u: nat, v: nat)
    ensures u * v == v * u
  {
  }

  lemma SquareOfTotal(r: nat, s: nat)
    ensures (r + s) * (r + s) == r * r + s * s + 2 * (r * s) && r * s == s * r
  {
  }

  lemma LegsBoundProduct(x0: i16, y0: i16, x1: i16, y1: i16, x2: i16, y2: i16)
    ensures Square((x1 - x0) * (x2 - x1) + (y1 - y0) * (y2 - y1))
      <= DistanceSq(x0, y0, x1, y1) * DistanceSq(x1, y1, x2, y2)
  {
    CauchySchwarz(x1 - x0, y1 - y0, x2 - x1, y2 - y1);
  }

  /** With one leg of length at most `r` exactly, the inner product is below `r` times `s + 1/2`. */
  lemma ExactLegBelow(p: int, u: nat, v: nat, r: nat, s: nat)
    requires Square(p) <= u * v && u <= r * r && v <= s * s + s
    ensures 2 * p <= 2 * (r * s) + r
  {
    var b := 2 * s + 1;
    Halves(s, s);
    assert 4 * v < b * b;
    assert r * b == 2 * (r * s) + r by { TimesOdd(r, s); }
    assert (2 * p) * (2 * p) <= (r * b) * (r * b) by { ExactInSquares(p, u, v, r, b); }
    if 2 * p > r * b {
      SquareMono(r * b + 1, 2 * p);
      SquareStep(r * b);
    }
  }

  lemma TimesOdd(r: nat, s: nat)
    ensures r * (2 * s + 1) == 2 * (r * s) + r
  {
  }

  lemma SquareStep(k: nat)
    ensures k * k < (k + 1) * (k + 1)
  {
  }

  lemma ExactInSquares(p: int, u: nat, v: nat, r: nat, b: nat)
    requires Square(p) <= u * v && u <= r * r && 4 * v <= b * b
    ensures (2 * p) * (2 * p) <= (r * b) * (r * b)
  {
    ProductAtMost(u, 4 * v, r * r, b * b);
    Regroup(r, b);
    assert (2 * p) * (2 * p) == 4 * (p * p);
    assert u * (4 * v) == 4 * (u * v);
  }

  lemma ProductAtMost(u: nat, v: nat, x: nat, y: nat)
    requires u <= x && v <= y
    ensures u * v <= x * y
  {
    assert u * v <= u * y;
    assert u * y <= x * y;
  }

  /** The unit of slack is needed: two diagonal steps round down, their sum rounds up. */
  lemma SlackIsNeeded()
    ensures Distance(0, 0, 2, 2) == Distance(0, 0, 1, 1) + Distance(1, 1, 2, 2) + 1
  {
    NearestIsUnique(3, DistanceSq(0, 0, 2, 2));
    NearestIsUnique(1, DistanceSq(0, 0, 1, 1));
    NearestIsUnique(1, DistanceSq(1, 1, 2, 2));
  }
}
