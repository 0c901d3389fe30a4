/**
 One axis of the diagonal mirror of the map generator, in exact integers. The source computes it in `f64`;
 away from an exact half the float error cannot change the nearest integer, and on an exact half
 the direction is left to an arbitrary `TieBreak`, so every result holds whichever way it goes.
 */
module MirrorAxis {
  import opened Arith
  import opened Prelude

  /** Whether the exact half `num / den` is rounded up. */
  type TieBreak = (int, int) -> bool

  /** The integer nearest to `num / den`. */
  function RoundNearest(num: int, den: int, up: TieBreak): int
    requires den > 0
  {
    var floor, rest := num / den, num % den;
    if 2 * rest < den || (2 * rest == den && !up(num, den)) then floor else floor + 1
  }

  lemma NearestIsNear(num: int, den: int, up: TieBreak)
    requires den > 0
    ensures -den <= 2 * (num - RoundNearest(num, den, up) * den) <= den
  {
    var floor, rest := num / den, num % den;
    assert num == floor * den + rest;
    assert (floor + 1) * den == floor * den + den;
  }

  function Clamp(x: int, low: int, high: int): int { Min(Max(x, low), high) }

  /** Before clamping: position `x` on an axis of `n` tiles, mirrored onto an axis of `m` tiles. */
  function Unclamped(m: nat, n: nat, x: nat, up: TieBreak): int
    requires n > 0
  {
    RoundNearest((2 * n - 2 * x - 1) * m - n, 2 * n, up)
  }

  /** Both coordinates of the source's mirror are this one function, with the axes exchanged. */
  function AxisMirror(m: nat, n: nat, x: nat, up: TieBreak): (y: nat)
    requires m > 0 && n > 0
    ensures y < m
  {
    Clamp(Unclamped(m, n, x, up), 0, m - 1)
  }

  /** The clamps of the source never change a value. */
  lemma ClampIsIdle(m: nat, n: nat, x: nat, up: TieBreak)
    requires m > 0 && x < n
    ensures AxisMirror(m, n, x, up) == Unclamped(m, n, x, up)
  {
    hide RoundNearest;
    var q := Unclamped(m, n, x, up);
    NearestIsNear((2 * n - 2 * x - 1) * m - n, 2 * n, up);
    MulMono(1, 2 * n - 2 * x - 1, m);
    MulMono(2 * n - 2 * x - 1, 2 * n - 1, m);
    if q < 0 {
      MulMono(q, -1, 2 * n);
    } else if q >= m {
      MulMono(m, q, 2 * n);
      ProductsAgree(m, n);
    }
  }

  lemma ProductsAgree(m: nat, n: nat)
    ensures (2 * n - 1) * m == m * (2 * n) - m
  {
  }

  /** How far `y` is from the exact mirror image of `x`, times `2n`. */
  function Slack(m: nat, n: nat, x: nat, y: nat): int { (2 * n - 2 * x - 1) * m - n * (2 * y + 1) }

  lemma SlackIsSmall(m: nat, n: nat, x: nat, up: TieBreak)
    requires m > 0 && x < n
    ensures Abs(Slack(m, n, x, AxisMirror(m, n, x, up))) <= n
  {
    hide RoundNearest;
    ClampIsIdle(m, n, x, up);
    NearestIsNear((2 * n - 2 * x - 1) * m - n, 2 * n, up);
    var q := Unclamped(m, n, x, up);
    assert q * (2 * n) == n * (2 * q + 1) - n;
  }

  lemma SlackDifference(m: nat, n: nat, x: nat, a: nat, b: nat)
    ensures Slack(m, n, a, b) - Slack(n, m, x, a) == (x - b) * (2 * n)
  {
    var mn := m * n;
    assert (2 * n - 2 * a - 1) * m == 2 * mn - (2 * a + 1) * m;
    assert (2 * m - 2 * x - 1) * n == 2 * mn - (2 * x + 1) * n;
    assert (2 * x + 1) * n - n * (2 * b + 1) == (x - b) * (2 * n);
  }

  lemma SquareSlack(n: nat, x: nat, y: nat)
    ensures Slack(n, n, x, y) == (n - 1 - x - y) * (2 * n)
  {
  }

  lemma SquareAxisMirror(n: nat, x: nat, up: TieBreak)
    requires x < n
    ensures AxisMirror(n, n, x, up) == n - 1 - x
  {
    var y := AxisMirror(n, n, x, up);
    SlackIsSmall(n, n, x, up);
    SquareSlack(n, x, y);
    MultipleBelow(n - 1 - x - y, 2 * n, Slack(n, n, x, y));
  }

  /** Mirroring from the shorter axis to the longer and back is the identity. */
  lemma ThereAndBack(m: nat, n: nat, x: nat, up: TieBreak)
    requires 0 < m <= n && x < m
    ensures AxisMirror(m, n, AxisMirror(n, m, x, up), up) == x
  {
    var a := AxisMirror(n, m, x, up);
    var b := AxisMirror(m, n, a, up);
    if m == n {
      SquareAxisMirror(n, x, up);
      SquareAxisMirror(n, a, up);
    } else {
      SlackIsSmall(n, m, x, up);
      SlackIsSmall(m, n, a, up);
      SlackDifference(m, n, x, a, b);
      MultipleBelow(x - b, 2 * n, Slack(m, n, a, b) - Slack(n, m, x, a));
    }
  }

  /** There, back and there again is there, on axes of any two lengths. */
  lemma ThereBackThere(m: nat, n: nat, x: nat, up: TieBreak)
    requires 0 < m && x < n
    ensures AxisMirror(m, n, AxisMirror(n, m, AxisMirror(m, n, x, up), up), up) == AxisMirror(m, n, x, up)
  {
    if m <= n {
      ThereAndBack(m, n, AxisMirror(m, n, x, up), up);
    } else {
      ThereAndBack(n, m, x, up);
    }
  }
}
