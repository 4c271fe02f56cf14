/**
 * The points drawLine and drawCircle plot, in the order they plot them. The
 * driver's methods are specified as Plot over these sequences; the lemmas say
 * what shape the sequences have.
 */
module Raster {
  import opened Geometry
  import opened Framebuffer

  function Abs(n: int): nat {
    if n < 0 then -n else n
  }

  function Min(a: int, b: int): int {
    if a <= b then a else b
  }

  function Max(a: int, b: int): int {
    if a <= b then b else a
  }

  // ---------------------------------------------------------------- lines

  /** The vertical branch of drawLine: the points (x, y) for y from lo up to hi. */
  function Column(x: int, lo: int, hi: int): (pts: seq<Point>)
    ensures |pts| == if lo <= hi then hi - lo + 1 else 0
    ensures lo <= hi ==> pts[0] == (x, lo) && pts[|pts| - 1] == (x, hi)
  {
    seq(if lo <= hi then hi - lo + 1 else 0, k => (x, lo + k))
  }

  /** The source's `adjust`: 1 when the slope dy / dx is non-negative (dy == 0 gives +0 or -0, both >= 0), else -1. */
  function Adjust(dx: int, dy: int): (a: int)
    requires dx != 0
    ensures a == 1 || a == -1
  {
    if dy == 0 || (dy > 0) == (dx > 0) then 1 else -1
  }

  /** Iterations of drawLine's loop: one per value of the independent coordinate. */
  function LineIterations(x1: int, y1: int, x2: int, y2: int): nat {
    Max(Abs(x2 - x1), Abs(y2 - y1)) + 1
  }

  /**
   * n (independent, dependent) pairs: the independent coordinate counts up from i0,
   * the dependent one starts at d0 and moves by adjust after each iteration whose
   * step decision stepAt[k] is true.
   */
  function Staircase(i0: int, d0: int, n: nat, adjust: int, stepAt: seq<bool>): (s: seq<(int, int)>)
    requires n <= |stepAt|
    ensures |s| == n
    decreases n
  {
    if n == 0 then []
    else [(i0, d0)] + Staircase(i0 + 1, if stepAt[0] then d0 + adjust else d0, n - 1, adjust, stepAt[1..])
  }

  function Transposed(s: seq<(int, int)>): seq<Point> {
    seq(|s|, k requires 0 <= k < |s| => (s[k].1, s[k].0))
  }

  /**
   * The points drawLine(x1, y1, x2, y2) plots. stepAt[k] is the outcome of the float
   * test `offset >= threshold` in iteration k; the vertical branch does not use it.
   */
  function LinePoints(x1: int, y1: int, x2: int, y2: int, stepAt: seq<bool>): (pts: seq<Point>)
    requires |stepAt| == LineIterations(x1, y1, x2, y2)
    ensures |pts| == LineIterations(x1, y1, x2, y2)
  {
    var dx, dy := x2 - x1, y2 - y1;
    if dx == 0 then Column(x1, Min(y1, y2), Max(y1, y2))
    else if Abs(dy) <= Abs(dx) then
      Staircase(Min(x1, x2), if x2 < x1 then y2 else y1, Abs(dx) + 1, Adjust(dx, dy), stepAt)
    else
      Transposed(Staircase(Min(y1, y2), if y2 < y1 then x2 else x1, Abs(dy) + 1, Adjust(dx, dy), stepAt))
  }

  /** Number of true decisions in s. */
  function CountTrue(s: seq<bool>): nat {
    if s == [] then 0 else (if s[0] then 1 else 0) + CountTrue(s[1..])
  }

  /**
   * Pair k of a staircase has independent coordinate i0 + k and dependent coordinate
   * d0 moved by adjust once per true decision before iteration k.
   */
  lemma {:induction false} StaircaseAt(i0: int, d0: int, n: nat, adjust: int, stepAt: seq<bool>)
    requires n <= |stepAt|
    ensures |Staircase(i0, d0, n, adjust, stepAt)| == n
    ensures forall k | 0 <= k < n :: Staircase(i0, d0, n, adjust, stepAt)[k] == (i0 + k, d0 + adjust * CountTrue(stepAt[..k]))
    decreases n
  {
    if n > 0 {
      var d1 := if stepAt[0] then d0 + adjust else d0;
      StaircaseAt(i0 + 1, d1, n - 1, adjust, stepAt[1..]);
      var s, t := Staircase(i0, d0, n, adjust, stepAt), Staircase(i0 + 1, d1, n - 1, adjust, stepAt[1..]);
      assert s == [(i0, d0)] + t;
      forall k | 0 < k < n
        ensures s[k] == (i0 + k, d0 + adjust * CountTrue(stepAt[..k]))
      {
        var step, c := if stepAt[0] then 1 else 0, CountTrue(stepAt[1..][..k - 1]);
        assert stepAt[..k][1..] == stepAt[1..][..k - 1];
        assert CountTrue(stepAt[..k]) == step + c;
        assert adjust * (step + c) == adjust * step + adjust * c;
        assert s[k] == t[k - 1];
      }
    }
  }

  /** Between consecutive pairs the dependent coordinate moves by 0, or by adjust when that iteration's decision was true. */
  lemma StaircaseSteps(i0: int, d0: int, n: nat, adjust: int, stepAt: seq<bool>)
    requires n <= |stepAt|
    ensures |Staircase(i0, d0, n, adjust, stepAt)| == n
    ensures forall k | 0 <= k < n - 1 ::
      Staircase(i0, d0, n, adjust, stepAt)[k + 1].1 - Staircase(i0, d0, n, adjust, stepAt)[k].1 == if stepAt[k] then adjust else 0
  {
    StaircaseAt(i0, d0, n, adjust, stepAt);
    forall k | 0 <= k < n - 1
      ensures CountTrue(stepAt[..k + 1]) == CountTrue(stepAt[..k]) + if stepAt[k] then 1 else 0
    {
      CountTrueSnoc(stepAt[..k], stepAt[k]);
      assert stepAt[..k + 1] == stepAt[..k] + [stepAt[k]];
    }
  }

  lemma {:induction false} CountTrueSnoc(s: seq<bool>, t: bool)
    ensures CountTrue(s + [t]) == CountTrue(s) + if t then 1 else 0
  {
    if s != [] {
      assert (s + [t])[1..] == s[1..] + [t];
      CountTrueSnoc(s[1..], t);
    }
  }

  /** A vertical line plots exactly the column between the endpoints, each pixel once, lowest first. */
  lemma VerticalLine(x1: int, y1: int, x2: int, y2: int, stepAt: seq<bool>)
    requires x1 == x2 && |stepAt| == LineIterations(x1, y1, x2, y2)
    ensures |LinePoints(x1, y1, x2, y2, stepAt)| == Abs(y2 - y1) + 1
    ensures forall k | 0 <= k < Abs(y2 - y1) + 1 :: LinePoints(x1, y1, x2, y2, stepAt)[k] == (x1, Min(y1, y2) + k)
    ensures forall p: Point :: p in LinePoints(x1, y1, x2, y2, stepAt) <==> p.0 == x1 && Min(y1, y2) <= p.1 <= Max(y1, y2)
  {
    var pts := LinePoints(x1, y1, x2, y2, stepAt);
    forall p: Point | p.0 == x1 && Min(y1, y2) <= p.1 <= Max(y1, y2)
      ensures p in pts
    {
      assert pts[p.1 - Min(y1, y2)] == p;
    }
  }

  /** A line whose endpoints coincide plots that one pixel. */
  lemma SinglePointLine(x: int, y: int, stepAt: seq<bool>)
    requires |stepAt| == LineIterations(x, y, x, y)
    ensures LinePoints(x, y, x, y, stepAt) == [(x, y)]
  {
  }

  /**
   * A line with |dy| <= |dx| (slope within [-1, 1]) visits each x from the smaller
   * to the larger endpoint once, in order; y starts at the y of the endpoint with
   * the smaller x and moves by 0 or adjust (+1 or -1) per step.
   */
  lemma ShallowLine(x1: int, y1: int, x2: int, y2: int, stepAt: seq<bool>)
    requires x1 != x2 && Abs(y2 - y1) <= Abs(x2 - x1) && |stepAt| == LineIterations(x1, y1, x2, y2)
    ensures var pts := LinePoints(x1, y1, x2, y2, stepAt);
      && |pts| == Abs(x2 - x1) + 1
      && (forall k | 0 <= k < |pts| :: pts[k].0 == Min(x1, x2) + k)
      && pts[0].1 == (if x2 < x1 then y2 else y1)
      && Abs(Adjust(x2 - x1, y2 - y1)) == 1
      && forall k | 0 <= k < |pts| - 1 :: pts[k + 1].1 - pts[k].1 == if stepAt[k] then Adjust(x2 - x1, y2 - y1) else 0
  {
    var ys := if x2 < x1 then y2 else y1;
    StaircaseAt(Min(x1, x2), ys, Abs(x2 - x1) + 1, Adjust(x2 - x1, y2 - y1), stepAt);
    StaircaseSteps(Min(x1, x2), ys, Abs(x2 - x1) + 1, Adjust(x2 - x1, y2 - y1), stepAt);
  }

  /** A line with |dy| > |dx| is the same with the roles of x and y exchanged. */
  lemma SteepLine(x1: int, y1: int, x2: int, y2: int, stepAt: seq<bool>)
    requires x1 != x2 && Abs(y2 - y1) > Abs(x2 - x1) && |stepAt| == LineIterations(x1, y1, x2, y2)
    ensures var pts := LinePoints(x1, y1, x2, y2, stepAt);
      && |pts| == Abs(y2 - y1) + 1
      && (forall k | 0 <= k < |pts| :: pts[k].1 == Min(y1, y2) + k)
      && pts[0].0 == (if y2 < y1 then x2 else x1)
      && Abs(Adjust(x2 - x1, y2 - y1)) == 1
      && forall k | 0 <= k < |pts| - 1 :: pts[k + 1].0 - pts[k].0 == if stepAt[k] then Adjust(x2 - x1, y2 - y1) else 0
  {
    var xs := if y2 < y1 then x2 else x1;
    StaircaseAt(Min(y1, y2), xs, Abs(y2 - y1) + 1, Adjust(x2 - x1, y2 - y1), stepAt);
    StaircaseSteps(Min(y1, y2), xs, Abs(y2 - y1) + 1, Adjust(x2 - x1, y2 - y1), stepAt);
  }

  // ------------------------------------------- the float loop in exact arithmetic

  /**
   * The step decisions of drawLine's loop computed in exact rational arithmetic
   * instead of float: each iteration adds delta to offset, and takes a step, raising
   * threshold by 1, when offset has reached threshold.
   */
  function IdealSteps(offset: real, threshold: real, delta: real, n: nat): (s: seq<bool>)
    ensures |s| == n
    decreases n
  {
    if n == 0 then []
    else
      var o := offset + delta;
      [o >= threshold] + IdealSteps(o, if o >= threshold then threshold + 1.0 else threshold, delta, n - 1)
  }

  /** |dy / dx| or |dx / dy|, whichever the branch accumulates; 0 for a vertical line. */
  function IdealDelta(x1: int, y1: int, x2: int, y2: int): (d: real)
    ensures 0.0 <= d <= 1.0
    ensures Max(Abs(x2 - x1), Abs(y2 - y1)) as real * d == Min(Abs(x2 - x1), Abs(y2 - y1)) as real
  {
    var dx, dy := Abs(x2 - x1), Abs(y2 - y1);
    if dx == 0 then 0.0
    else if dy <= dx then SlopeFacts(dx, dy); dy as real / dx as real
    else SlopeFacts(dy, dx); dx as real / dy as real
  }

  /** drawLine's decisions with offset starting at 0 and threshold at 0.5, in exact arithmetic. */
  function IdealLineSteps(x1: int, y1: int, x2: int, y2: int): (s: seq<bool>)
    ensures |s| == LineIterations(x1, y1, x2, y2)
  {
    IdealSteps(0.0, 0.5, IdealDelta(x1, y1, x2, y2), LineIterations(x1, y1, x2, y2))
  }

  /** The running offset after j iterations that each add d: j * d, accumulated. */
  function Scaled(j: nat, d: real): real {
    if j == 0 then 0.0 else Scaled(j - 1, d) + d
  }

  lemma {:induction false} ScaledValue(j: nat, d: real)
    ensures Scaled(j, d) == j as real * d
  {
    if j > 0 {
      ScaledValue(j - 1, d);
      assert (j - 1) as real * d + d == j as real * d;
    }
  }

  /**
   * With 0 <= delta <= 1, the number c of steps taken in the first j iterations keeps
   * offset + j * delta within [threshold + c - 1, threshold + c): the dependent
   * coordinate is the rounded exact one.
   */
  lemma {:induction false} IdealStepsCount(offset: real, threshold: real, delta: real, n: nat, j: nat)
    requires 0.0 <= delta <= 1.0 && threshold - 1.0 <= offset < threshold && j <= n
    ensures |IdealSteps(offset, threshold, delta, n)| == n
    ensures var c := CountTrue(IdealSteps(offset, threshold, delta, n)[..j]) as real;
      threshold - 1.0 <= offset + Scaled(j, delta) - c < threshold
    decreases j
  {
    if j > 0 {
      var s := IdealSteps(offset, threshold, delta, n);
      var o := offset + delta;
      var t := if o >= threshold then threshold + 1.0 else threshold;
      var s1 := IdealSteps(o, t, delta, n - 1);
      IdealStepsCount(o, t, delta, n - 1, j - 1);
      assert s[..j] == [o >= threshold] + s1[..j - 1];
      assert CountTrue(s[..j]) == (if o >= threshold then 1 else 0) + CountTrue(s1[..j - 1]);
    }
  }

  /** In exact arithmetic, a branch of k + 1 iterations over a rise of r <= k takes r steps in its first k decisions, and never more than r. */
  lemma IdealRise(k: nat, r: nat, j: nat)
    requires 0 < k && r <= k && j <= k
    ensures |IdealSteps(0.0, 0.5, r as real / k as real, k + 1)| == k + 1
    ensures CountTrue(IdealSteps(0.0, 0.5, r as real / k as real, k + 1)[..j]) <= r
    ensures CountTrue(IdealSteps(0.0, 0.5, r as real / k as real, k + 1)[..k]) == r
  {
    SlopeFacts(k, r);
    RiseCount(k, r, j, r as real / k as real);
  }

  /** The same for any slope delta with k * delta == r. */
  lemma RiseCount(k: nat, r: nat, j: nat, delta: real)
    requires 0 < k && r <= k && j <= k && 0.0 <= delta <= 1.0 && k as real * delta == r as real
    ensures |IdealSteps(0.0, 0.5, delta, k + 1)| == k + 1
    ensures CountTrue(IdealSteps(0.0, 0.5, delta, k + 1)[..j]) <= r
    ensures CountTrue(IdealSteps(0.0, 0.5, delta, k + 1)[..k]) == r
  {
    var s := IdealSteps(0.0, 0.5, delta, k + 1);
    ScaledValue(k, delta);
    ScaleMono(j, k, delta);
    IdealStepsCount(0.0, 0.5, delta, k + 1, j);
    IdealStepsCount(0.0, 0.5, delta, k + 1, k);
    assert CountTrue(s[..j]) as real <= r as real + 0.5;
  }

  /** The slope r / k of a branch with r <= k lies in [0, 1], and k of them make r. */
  lemma SlopeFacts(k: nat, r: nat)
    requires 0 < k && r <= k
    ensures 0.0 <= r as real / k as real <= 1.0
    ensures k as real * (r as real / k as real) == r as real
  {
  }

  lemma {:induction false} ScaleMono(a: nat, b: nat, d: real)
    requires a <= b && 0.0 <= d
    ensures Scaled(a, d) <= Scaled(b, d)
    decreases b - a
  {
    if a < b {
      ScaleMono(a, b - 1, d);
    }
  }

  /** Every point in the bounding box of the endpoints; the first point is one endpoint and the last the other. */
  predicate EndToEnd(pts: seq<Point>, x1: int, y1: int, x2: int, y2: int) {
    && |pts| > 0
    && (forall k | 0 <= k < |pts| :: Min(x1, x2) <= pts[k].0 <= Max(x1, x2) && Min(y1, y2) <= pts[k].1 <= Max(y1, y2))
    && ((pts[0] == (x1, y1) && pts[|pts| - 1] == (x2, y2)) || (pts[0] == (x2, y2) && pts[|pts| - 1] == (x1, y1)))
  }

  /** In exact arithmetic a line runs from one endpoint to the other and never leaves their bounding box. */
  lemma IdealLineInBox(x1: int, y1: int, x2: int, y2: int)
    ensures EndToEnd(LinePoints(x1, y1, x2, y2, IdealLineSteps(x1, y1, x2, y2)), x1, y1, x2, y2)
  {
    var st := IdealLineSteps(x1, y1, x2, y2);
    if x1 == x2 {
      VerticalLine(x1, y1, x2, y2, st);
    } else if Abs(y2 - y1) <= Abs(x2 - x1) {
      IdealShallowLine(x1, y1, x2, y2);
    } else {
      IdealSteepLine(x1, y1, x2, y2);
    }
  }

  lemma IdealShallowLine(x1: int, y1: int, x2: int, y2: int)
    requires x1 != x2 && Abs(y2 - y1) <= Abs(x2 - x1)
    ensures EndToEnd(LinePoints(x1, y1, x2, y2, IdealLineSteps(x1, y1, x2, y2)), x1, y1, x2, y2)
  {
    IdealBranchStair(x1, y1, x2, y2, Min(x1, x2), if x2 < x1 then y2 else y1, if x2 < x1 then y1 else y2);
    ShallowInBox(x1, y1, x2, y2, IdealLineSteps(x1, y1, x2, y2));
  }

  lemma IdealSteepLine(x1: int, y1: int, x2: int, y2: int)
    requires x1 != x2 && Abs(y2 - y1) > Abs(x2 - x1)
    ensures EndToEnd(LinePoints(x1, y1, x2, y2, IdealLineSteps(x1, y1, x2, y2)), x1, y1, x2, y2)
  {
    IdealBranchStair(x1, y1, x2, y2, Min(y1, y2), if y2 < y1 then x2 else x1, if y2 < y1 then x1 else x2);
    SteepInBox(x1, y1, x2, y2, IdealLineSteps(x1, y1, x2, y2));
  }

  /**
   * The staircase of the k + 1 decisions st from (lo, d0) walks lo .. lo + k, ends at
   * dependent coordinate d1, and stays between d0 and d1 throughout.
   */
  predicate StairBetween(lo: int, d0: int, d1: int, k: nat, adjust: int, st: seq<bool>) {
    && |st| == k + 1
    && var s := Staircase(lo, d0, k + 1, adjust, st);
      && s[0] == (lo, d0) && s[k] == (lo + k, d1)
      && forall j | 0 <= j <= k :: s[j].0 == lo + j && Min(d0, d1) <= s[j].1 <= Max(d0, d1)
  }

  /** Whatever the decisions, a shallow line whose staircase ends at the far endpoint runs end to end inside the box. */
  lemma ShallowInBox(x1: int, y1: int, x2: int, y2: int, st: seq<bool>)
    requires x1 != x2 && Abs(y2 - y1) <= Abs(x2 - x1) && |st| == LineIterations(x1, y1, x2, y2)
    requires StairBetween(Min(x1, x2), if x2 < x1 then y2 else y1, if x2 < x1 then y1 else y2,
                          Abs(x2 - x1), Adjust(x2 - x1, y2 - y1), st)
    ensures EndToEnd(LinePoints(x1, y1, x2, y2, st), x1, y1, x2, y2)
  {
    var k, lo, ys, ye := Abs(x2 - x1), Min(x1, x2), if x2 < x1 then y2 else y1, if x2 < x1 then y1 else y2;
    var pts := LinePoints(x1, y1, x2, y2, st);
    assert pts == Staircase(lo, ys, k + 1, Adjust(x2 - x1, y2 - y1), st);
    forall j | 0 <= j < |pts|
      ensures Min(x1, x2) <= pts[j].0 <= Max(x1, x2) && Min(y1, y2) <= pts[j].1 <= Max(y1, y2)
    {
    }
    assert pts[0] == (lo, ys) && pts[k] == (lo + k, ye);
  }

  /** The same for a steep line, with x and y exchanged. */
  lemma SteepInBox(x1: int, y1: int, x2: int, y2: int, st: seq<bool>)
    requires x1 != x2 && Abs(y2 - y1) > Abs(x2 - x1) && |st| == LineIterations(x1, y1, x2, y2)
    requires StairBetween(Min(y1, y2), if y2 < y1 then x2 else x1, if y2 < y1 then x1 else x2,
                          Abs(y2 - y1), Adjust(x2 - x1, y2 - y1), st)
    ensures EndToEnd(LinePoints(x1, y1, x2, y2, st), x1, y1, x2, y2)
  {
    var k, lo, xs, xe := Abs(y2 - y1), Min(y1, y2), if y2 < y1 then x2 else x1, if y2 < y1 then x1 else x2;
    var stair := Staircase(lo, xs, k + 1, Adjust(x2 - x1, y2 - y1), st);
    var pts := LinePoints(x1, y1, x2, y2, st);
    assert pts == Transposed(stair);
    forall j | 0 <= j < |pts|
      ensures Min(x1, x2) <= pts[j].0 <= Max(x1, x2) && Min(y1, y2) <= pts[j].1 <= Max(y1, y2)
    {
      assert pts[j] == (stair[j].1, stair[j].0);
    }
    assert pts[0] == (xs, lo) && pts[k] == (xe, lo + k);
  }

  /**
   * The staircase of a sloped line under exact decisions: it walks the longer side
   * from lo, and the other coordinate goes from the start d0 to the end d1 without
   * leaving the range between them.
   */
  lemma IdealBranchStair(x1: int, y1: int, x2: int, y2: int, lo: int, d0: int, d1: int)
    requires x1 != x2
    requires if Abs(y2 - y1) <= Abs(x2 - x1)
      then lo == Min(x1, x2) && d0 == (if x2 < x1 then y2 else y1) && d1 == (if x2 < x1 then y1 else y2)
      else lo == Min(y1, y2) && d0 == (if y2 < y1 then x2 else x1) && d1 == (if y2 < y1 then x1 else x2)
    ensures StairBetween(lo, d0, d1, Max(Abs(x2 - x1), Abs(y2 - y1)), Adjust(x2 - x1, y2 - y1), IdealLineSteps(x1, y1, x2, y2))
  {
    IdealBranchSteps(x1, y1, x2, y2);
    var k, r := Max(Abs(x2 - x1), Abs(y2 - y1)), Min(Abs(x2 - x1), Abs(y2 - y1));
    if Abs(y2 - y1) <= Abs(x2 - x1) {
      ShallowEnd(x1, y1, x2, y2);
    } else {
      SteepEnd(x1, y1, x2, y2);
    }
    IdealStair(lo, d0, k, r, Adjust(x2 - x1, y2 - y1), d1);
  }

  /** The exact decisions of a sloped line are those of its branch: k + 1 iterations of slope r / k, where k is the longer side. */
  lemma IdealBranchSteps(x1: int, y1: int, x2: int, y2: int)
    requires x1 != x2
    ensures var k, r := Max(Abs(x2 - x1), Abs(y2 - y1)), Min(Abs(x2 - x1), Abs(y2 - y1));
      IdealLineSteps(x1, y1, x2, y2) == IdealSteps(0.0, 0.5, r as real / k as real, k + 1)
  {
  }

  /**
   * With exact decisions for r rises over k > 0 iterations, the staircase walks the
   * independent coordinate from i0 to i0 + k and ends exactly r steps of adjust
   * from d0, never leaving the range between d0 and that end.
   */
  lemma IdealStair(i0: int, d0: int, k: nat, r: nat, adj: int, d1: int)
    requires 0 < k && r <= k && (adj == 1 || adj == -1) && d1 == d0 + adj * r
    ensures StairBetween(i0, d0, d1, k, adj, IdealSteps(0.0, 0.5, r as real / k as real, k + 1))
  {
    var st := IdealSteps(0.0, 0.5, r as real / k as real, k + 1);
    IdealRise(k, r, k);
    StaircaseAt(i0, d0, k + 1, adj, st);
    var s := Staircase(i0, d0, k + 1, adj, st);
    forall j | 0 <= j <= k
      ensures Min(d0, d1) <= s[j].1 <= Max(d0, d1)
    {
      IdealRise(k, r, j);
      var c := CountTrue(st[..j]);
      assert s[j].1 == d0 + adj * c;
      if adj == 1 {
        assert d0 <= d0 + c <= d0 + r;
      } else {
        assert d0 - r <= d0 - c <= d0;
      }
    }
  }

  /** On a shallow line, |dy| rises of adjust from the y of the leftmost endpoint reach the y of the other one. */
  lemma ShallowEnd(x1: int, y1: int, x2: int, y2: int)
    requires x1 != x2
    ensures (if x2 < x1 then y2 else y1) + Adjust(x2 - x1, y2 - y1) * Abs(y2 - y1) == if x2 < x1 then y1 else y2
  {
  }

  /** On a steep line, |dx| steps of adjust from the x of the lowest endpoint reach the x of the other one. */
  lemma SteepEnd(x1: int, y1: int, x2: int, y2: int)
    requires x1 != x2 && y1 != y2
    ensures (if y2 < y1 then x2 else x1) + Adjust(x2 - x1, y2 - y1) * Abs(x2 - x1) == if y2 < y1 then x1 else x2
  {
  }

  /** So in exact arithmetic a line between two on-screen endpoints stays on screen. */
  lemma IdealLineOnScreen(x1: int, y1: int, x2: int, y2: int)
    requires OnScreen(x1, y1) && OnScreen(x2, y2)
    ensures AllOnScreen(LinePoints(x1, y1, x2, y2, IdealLineSteps(x1, y1, x2, y2)))
  {
    IdealLineInBox(x1, y1, x2, y2);
  }

  /** In exact arithmetic a horizontal line is one straight row: no step is ever taken. */
  lemma IdealHorizontalLine(x1: int, x2: int, y: int)
    requires x1 != x2
    ensures var pts := LinePoints(x1, y, x2, y, IdealLineSteps(x1, y, x2, y));
      |pts| == Abs(x2 - x1) + 1 && forall k | 0 <= k < |pts| :: pts[k] == (Min(x1, x2) + k, y)
  {
    IdealLineInBox(x1, y, x2, y);
    ShallowLine(x1, y, x2, y, IdealLineSteps(x1, y, x2, y));
  }

  // ---------------------------------------------------------------- circles

  /**
   * The (x, y) pairs drawCircle's loop plots from, starting from the given x, y and
   * radiusError: y goes up by one per iteration, and x goes down by one whenever
   * radiusError was not negative. The loop ends once x < y.
   */
  function OctantSteps(x: int, y: int, radiusError: int): (s: seq<(int, int)>)
    ensures |s| <= if x < y then 0 else x - y + 1
    decreases x - y
  {
    if x < y then []
    else
      var y' := y + 1;
      if radiusError < 0 then [(x, y)] + OctantSteps(x, y', radiusError + 2 * y' + 1)
      else [(x, y)] + OctantSteps(x - 1, y', radiusError + 2 * (y' - (x - 1) + 1))
  }

  /** The eight points plotted for offset (u, v) around (x0, y0), in the source's order. */
  function Octants(x0: int, y0: int, u: int, v: int): (o: seq<Point>)
    ensures |o| == 8
  {
    [(u + x0, v + y0), (v + x0, u + y0), (-u + x0, v + y0), (-v + x0, u + y0),
     (-u + x0, -v + y0), (-v + x0, -u + y0), (u + x0, -v + y0), (v + x0, -u + y0)]
  }

  /** The points plotted for a sequence of loop pairs, eight per pair. */
  function Expand(x0: int, y0: int, steps: seq<(int, int)>): (pts: seq<Point>)
    ensures |pts| == 8 * |steps|
    decreases |steps|
  {
    if steps == [] then []
    else Expand(x0, y0, steps[..|steps| - 1]) + Octants(x0, y0, steps[|steps| - 1].0, steps[|steps| - 1].1)
  }

  /** The points drawCircle(x0, y0, radius) plots, in order. */
  function CirclePoints(x0: int, y0: int, radius: int): (pts: seq<Point>)
    ensures |pts| == 8 * |OctantSteps(radius, 0, 1 - radius)|
    ensures (pts == []) == (radius < 0)
  {
    Expand(x0, y0, OctantSteps(radius, 0, 1 - radius))
  }

  lemma {:induction false} ExpandAppend(x0: int, y0: int, a: seq<(int, int)>, b: seq<(int, int)>)
    ensures Expand(x0, y0, a + b) == Expand(x0, y0, a) + Expand(x0, y0, b)
    decreases |b|
  {
    if b != [] {
      var init, last := b[..|b| - 1], b[|b| - 1];
      assert (a + b)[..|a + b| - 1] == a + init;
      ExpandAppend(x0, y0, a, init);
      assert (a + b)[|a + b| - 1] == last;
      assert Expand(x0, y0, a + b) == Expand(x0, y0, a + init) + Octants(x0, y0, last.0, last.1);
      assert Expand(x0, y0, b) == Expand(x0, y0, init) + Octants(x0, y0, last.0, last.1);
    } else {
      assert a + b == a;
    }
  }

  /**
   * The points drawCircle's loop plots from pair (x, y) on: the eight points of
   * this iteration, then those of the following iterations.
   */
  lemma ExpandNext(x0: int, y0: int, x: int, y: int, radiusError: int, x': int, y': int, radiusError': int)
    requires x >= y && y' == y + 1 && x' == (if radiusError < 0 then x else x - 1)
    requires radiusError' == if radiusError < 0 then radiusError + 2 * y' + 1 else radiusError + 2 * (y' - x' + 1)
    ensures Expand(x0, y0, OctantSteps(x, y, radiusError)) ==
      Octants(x0, y0, x, y) + Expand(x0, y0, OctantSteps(x', y', radiusError'))
  {
    OctantStepsNext(x, y, radiusError);
    var tail := OctantSteps(x', y', radiusError');
    assert OctantSteps(x, y, radiusError) == [(x, y)] + tail;
    ExpandAppend(x0, y0, [(x, y)], tail);
    assert Expand(x0, y0, [(x, y)]) == Octants(x0, y0, x, y) by {
      assert [(x, y)][..0] == [];
    }
  }

  /** Every loop pair of a radius r circle satisfies 0 <= y <= x <= r. */
  lemma {:induction false} OctantStepsBounds(x: int, y: int, radiusError: int, r: int)
    requires 0 <= y && x <= r
    ensures forall k | 0 <= k < |OctantSteps(x, y, radiusError)| ::
      0 <= OctantSteps(x, y, radiusError)[k].1 <= OctantSteps(x, y, radiusError)[k].0 <= r
    decreases x - y
  {
    if x >= y {
      var y' := y + 1;
      if radiusError < 0 {
        OctantStepsBounds(x, y', radiusError + 2 * y' + 1, r);
      } else {
        OctantStepsBounds(x - 1, y', radiusError + 2 * (y' - (x - 1) + 1), r);
      }
    }
  }

  /** One iteration of drawCircle's loop: the pair it plots from, then the pairs of the following iterations. */
  lemma OctantStepsNext(x: int, y: int, radiusError: int)
    requires x >= y
    ensures OctantSteps(x, y, radiusError) ==
      [(x, y)] + OctantSteps(if radiusError < 0 then x else x - 1, y + 1,
                             if radiusError < 0 then radiusError + 2 * (y + 1) + 1 else radiusError + 2 * ((y + 1) - (x - 1) + 1))
  {
  }

  /** The loop runs while x >= y, and its first pair is the one it starts from. */
  lemma OctantStepsStart(x: int, y: int, radiusError: int)
    ensures (x >= y) == (OctantSteps(x, y, radiusError) != [])
    ensures x >= y ==> OctantSteps(x, y, radiusError)[0] == (x, y)
  {
  }

  /** From one iteration to the next y grows by exactly 1 and x drops by at most 1, so x - y strictly decreases. */
  lemma {:induction false} OctantStepsProgress(x: int, y: int, radiusError: int)
    ensures forall k | 0 <= k < |OctantSteps(x, y, radiusError)| - 1 ::
      && OctantSteps(x, y, radiusError)[k + 1].1 == OctantSteps(x, y, radiusError)[k].1 + 1
      && OctantSteps(x, y, radiusError)[k].0 - 1 <= OctantSteps(x, y, radiusError)[k + 1].0 <= OctantSteps(x, y, radiusError)[k].0
    decreases x - y
  {
    if x >= y {
      var y' := y + 1;
      var x', e' := if radiusError < 0 then x else x - 1,
                    if radiusError < 0 then radiusError + 2 * y' + 1 else radiusError + 2 * (y' - (x - 1) + 1);
      var s, t := OctantSteps(x, y, radiusError), OctantSteps(x', y', e');
      assert s == [(x, y)] + t;
      OctantStepsProgress(x', y', e');
      OctantStepsStart(x', y', e');
      forall k | 0 <= k < |s| - 1
        ensures s[k + 1].1 == s[k].1 + 1 && s[k].0 - 1 <= s[k + 1].0 <= s[k].0
      {
        if k > 0 {
          assert s[k] == t[k - 1] && s[k + 1] == t[k];
        }
      }
    }
  }

  /** A circle of negative radius plots nothing. */
  lemma NegativeRadius(x0: int, y0: int, radius: int)
    requires radius < 0
    ensures CirclePoints(x0, y0, radius) == []
  {
  }

  /** A circle of radius r >= 0 reaches r pixels left, right, above and below its centre. */
  lemma CircleExtremes(x0: int, y0: int, radius: int)
    requires radius >= 0
    ensures forall p :: p in Octants(x0, y0, radius, 0) ==> p in CirclePoints(x0, y0, radius)
  {
    var s := OctantSteps(radius, 0, 1 - radius);
    OctantStepsStart(radius, 0, 1 - radius);
    ExpandContains(x0, y0, s, 0);
  }

  /** The points of pair k are among the expanded points. */
  lemma {:induction false} ExpandContains(x0: int, y0: int, steps: seq<(int, int)>, k: nat)
    requires k < |steps|
    ensures forall p :: p in Octants(x0, y0, steps[k].0, steps[k].1) ==> p in Expand(x0, y0, steps)
    decreases |steps|
  {
    if k < |steps| - 1 {
      ExpandContains(x0, y0, steps[..|steps| - 1], k);
    }
  }

  /** Every expanded point is one of the eight points of some pair. */
  lemma {:induction false} ExpandMember(x0: int, y0: int, steps: seq<(int, int)>, p: Point)
    requires p in Expand(x0, y0, steps)
    ensures exists k :: 0 <= k < |steps| && p in Octants(x0, y0, steps[k].0, steps[k].1)
    decreases |steps|
  {
    var n := |steps| - 1;
    if p !in Octants(x0, y0, steps[n].0, steps[n].1) {
      ExpandMember(x0, y0, steps[..n], p);
      var k :| 0 <= k < n && p in Octants(x0, y0, steps[..n][k].0, steps[..n][k].1);
      assert steps[..n][k] == steps[k];
    }
  }

  /** (a, b) is (u, v) or (v, u) with any choice of signs. */
  predicate Mirror(a: int, b: int, u: int, v: int) {
    (Abs(a) == Abs(u) && Abs(b) == Abs(v)) || (Abs(a) == Abs(v) && Abs(b) == Abs(u))
  }

  /** The eight points of offset (u, v) are exactly the centre plus the sign and swap images of (u, v). */
  lemma OctantsMembers(x0: int, y0: int, u: int, v: int, q: Point)
    ensures q in Octants(x0, y0, u, v) <==> Mirror(q.0 - x0, q.1 - y0, u, v)
  {
    var o := Octants(x0, y0, u, v);
    var a, b := q.0 - x0, q.1 - y0;
    if Mirror(a, b, u, v) {
      var i :=
        if Abs(a) == Abs(u) && Abs(b) == Abs(v) then
          (if a == u then (if b == v then 0 else 6) else (if b == v then 2 else 4))
        else
          (if a == v then (if b == u then 1 else 7) else (if b == u then 3 else 5));
      assert o[i] == q;
    }
  }

  /**
   * The plotted points are symmetric about the centre: with each point (x0 + u, y0 + v)
   * all of (x0 ± u, y0 ± v) and (x0 ± v, y0 ± u) are plotted too.
   */
  lemma CircleSymmetric(x0: int, y0: int, radius: int)
    ensures forall p, q :: p in CirclePoints(x0, y0, radius) && q in Octants(x0, y0, p.0 - x0, p.1 - y0) ==>
      q in CirclePoints(x0, y0, radius)
  {
    var steps := OctantSteps(radius, 0, 1 - radius);
    forall p | p in Expand(x0, y0, steps)
      ensures forall q :: q in Octants(x0, y0, p.0 - x0, p.1 - y0) ==> q in Expand(x0, y0, steps)
    {
      ExpandSymmetricAt(x0, y0, steps, p);
    }
  }

  lemma ExpandSymmetricAt(x0: int, y0: int, steps: seq<(int, int)>, p: Point)
    requires p in Expand(x0, y0, steps)
    ensures forall q :: q in Octants(x0, y0, p.0 - x0, p.1 - y0) ==> q in Expand(x0, y0, steps)
  {
    ExpandMember(x0, y0, steps, p);
    var k :| 0 <= k < |steps| && p in Octants(x0, y0, steps[k].0, steps[k].1);
    var u, v := steps[k].0, steps[k].1;
    ExpandContains(x0, y0, steps, k);
    forall q | q in Octants(x0, y0, p.0 - x0, p.1 - y0)
      ensures q in Expand(x0, y0, steps)
    {
      OctantsClosed(x0, y0, u, v, p, q);
    }
  }

  /** The eight points of any of the eight points of offset (u, v) are among those of (u, v). */
  lemma OctantsClosed(x0: int, y0: int, u: int, v: int, p: Point, q: Point)
    requires p in Octants(x0, y0, u, v) && q in Octants(x0, y0, p.0 - x0, p.1 - y0)
    ensures q in Octants(x0, y0, u, v)
  {
    OctantsMembers(x0, y0, u, v, p);
    OctantsMembers(x0, y0, p.0 - x0, p.1 - y0, q);
    OctantsMembers(x0, y0, u, v, q);
  }

  /** A circle whose bounding square is on screen stays on screen; a negative radius plots nothing. */
  lemma CircleOnScreen(x0: int, y0: int, radius: int)
    requires radius < 0 || (radius <= x0 && x0 + radius < Width && radius <= y0 && y0 + radius < Height)
    ensures AllOnScreen(CirclePoints(x0, y0, radius))
  {
    var steps := OctantSteps(radius, 0, 1 - radius);
    var pts := Expand(x0, y0, steps);
    OctantStepsBounds(radius, 0, 1 - radius, radius);
    forall k | 0 <= k < |pts|
      ensures OnScreen(pts[k].0, pts[k].1)
    {
      ExpandMember(x0, y0, steps, pts[k]);
    }
  }
}
