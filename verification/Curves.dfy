/** Integer piecewise-linear curves and their inverses.

Values are unbounded integers. The C++ code subtracts in 32 bits and multiplies in 64;
StaysInWidth says for which curves that is the same. */
module Curves {

  datatype CurvePoint = CurvePoint(x: int, y: int)

  /** C++ division: toward zero. */
  function Quotient(n: int, d: int): int
    requires d > 0
  {
    if n >= 0 then n / d else -((-n) / d)
  }

  function Interpolate(a: CurvePoint, b: CurvePoint, x: int): int {
    var dx := b.x - a.x;
    if dx <= 0 then b.y else a.y + Quotient((b.y - a.y) * (x - a.x), dx)
  }

  /** The first point from number `i` on that is not left of `x`. */
  function Segment(c: seq<CurvePoint>, i: nat, x: int): (k: nat)
    requires i <= |c|
    ensures i <= k <= |c|
    ensures k < |c| ==> x <= c[k].x
    ensures forall j :: i <= j < k ==> c[j].x < x
    decreases |c| - i
  {
    if i == |c| || x <= c[i].x then i else Segment(c, i + 1, x)
  }

  /** EvaluateCurve. */
  function Eval(c: seq<CurvePoint>, x: int): int {
    if c == [] then 0
    else
      var k := Segment(c, 0, x);
      if k == 0 then c[0].y
      else if k == |c| then c[|c| - 1].y
      else Interpolate(c[k - 1], c[k], x)
  }

  function Swap(c: seq<CurvePoint>): (s: seq<CurvePoint>)
    ensures |s| == |c| && forall i :: 0 <= i < |c| ==> s[i] == CurvePoint(c[i].y, c[i].x)
  {
    seq(|c|, i requires 0 <= i < |c| => CurvePoint(c[i].y, c[i].x))
  }

  /** EvaluateCurveInverse: the same computation with the coordinates exchanged. */
  function Inverse(c: seq<CurvePoint>, y: int): int { Eval(Swap(c), y) }

  // ----- every curve -----------------------------------------------------

  lemma QuotientBounds(dy: int, nx: int, dx: int)
    requires 0 < nx <= dx
    ensures dy >= 0 ==> 0 <= Quotient(dy * nx, dx) <= dy
    ensures dy <= 0 ==> dy <= Quotient(dy * nx, dx) <= 0
  {
    if dy >= 0 {
      MulOrder(dy, nx, dx);
      DivAtMost(dy * nx, dx, dy);
    } else {
      MulOrder(-dy, nx, dx);
      assert -(dy * nx) == (-dy) * nx;
      DivAtMost((-dy) * nx, dx, -dy);
    }
  }

  lemma MulOrder(a: int, b: int, c: int)
    requires a >= 0 && 0 <= b <= c
    ensures 0 <= a * b <= a * c
  {}

  lemma DivAtMost(n: int, d: int, bound: int)
    requires d > 0 && 0 <= n <= bound * d
    ensures 0 <= n / d <= bound
  {
    var q := n / d;
    assert n == q * d + n % d;
    if q > bound {
      MulOrder(d, bound + 1, q);
    }
  }

  /** A value between the ends of its segment; the guard against equal xs never decides. */
  lemma InterpolatedBetween(c: seq<CurvePoint>, x: int)
    requires c != []
    ensures var k := Segment(c, 0, x);
            0 < k < |c| ==>
              && c[k].x - c[k - 1].x > 0
              && (c[k - 1].y <= Eval(c, x) <= c[k].y || c[k].y <= Eval(c, x) <= c[k - 1].y)
  {
    var k := Segment(c, 0, x);
    if 0 < k < |c| {
      QuotientBounds(c[k].y - c[k - 1].y, x - c[k - 1].x, c[k].x - c[k - 1].x);
    }
  }

  /** Outside its points a curve goes on level; without any it is zero. */
  lemma EvalOutside(c: seq<CurvePoint>, x: int)
    ensures c == [] ==> Eval(c, x) == 0
    ensures c != [] && x <= c[0].x ==> Eval(c, x) == c[0].y
    ensures c != [] && (forall j :: 0 <= j < |c| ==> c[j].x < x) ==> Eval(c, x) == c[|c| - 1].y
  {}

  /** `v` is `n` over `d`, rounded toward zero. */
  predicate TowardZero(v: int, n: int, d: int) {
    if n >= 0 then v * d <= n < (v + 1) * d else (v - 1) * d < n <= v * d
  }

  lemma QuotientTowardZero(n: int, d: int)
    requires d > 0
    ensures TowardZero(Quotient(n, d), n, d)
  {
    var m := if n >= 0 then n else -n;
    var q, r := Divided(m, d);
    assert (q + 1) * d == q * d + d && (-q - 1) * d == -(q * d) - d;
  }

  /** Between the first point not left of `x` and the one before it the curve is the
      straight line through them, its rise rounded toward zero. */
  lemma EvalOnLine(c: seq<CurvePoint>, i: nat, x: int)
    requires 0 < i < |c| && x <= c[i].x && forall j :: 0 <= j < i ==> c[j].x < x
    ensures var a, b := c[i - 1], c[i];
            TowardZero(Eval(c, x) - a.y, (b.y - a.y) * (x - a.x), b.x - a.x)
  {
    assert Segment(c, 0, x) == i;
    QuotientTowardZero((c[i].y - c[i - 1].y) * (x - c[i - 1].x), c[i].x - c[i - 1].x);
  }

  /** The value lies between two of the curve's own ys, whatever the curve. */
  lemma EvalBetween(c: seq<CurvePoint>, x: int, low: int, high: int)
    requires c != [] && forall i :: 0 <= i < |c| ==> low <= c[i].y <= high
    ensures low <= Eval(c, x) <= high
  {
    InterpolatedBetween(c, x);
  }

  predicate RisingY(c: seq<CurvePoint>) {
    forall i, j :: 0 <= i <= j < |c| ==> c[i].y <= c[j].y
  }

  lemma InterpolateMonotone(a: CurvePoint, b: CurvePoint, x: int, z: int)
    requires a.x < x <= z <= b.x && a.y <= b.y
    ensures Interpolate(a, b, x) <= Interpolate(a, b, z)
  {
    var dy, dx := b.y - a.y, b.x - a.x;
    MulOrder(dy, x - a.x, z - a.x);
    DivMonotone(dy * (x - a.x), dy * (z - a.x), dx);
  }

  lemma DivMonotone(m: int, n: int, d: int)
    requires 0 <= m <= n && d > 0
    ensures m / d <= n / d
  {
    var p, q := m / d, n / d;
    assert m == p * d + m % d && n == q * d + n % d;
    if p > q {
      MulOrder(d, q + 1, p);
    }
  }

  /** Rising ys make a rising curve, whatever the xs. */
  lemma EvalMonotone(c: seq<CurvePoint>, x: int, z: int)
    requires RisingY(c) && x <= z
    ensures Eval(c, x) <= Eval(c, z)
  {
    if c != [] {
      var k, m := Segment(c, 0, x), Segment(c, 0, z);
      assert k <= m;
      InterpolatedBetween(c, x);
      InterpolatedBetween(c, z);
      if k == m && 0 < k < |c| {
        InterpolateMonotone(c[k - 1], c[k], x, z);
      }
    }
  }

  // ----- strictly rising curves and their inverses -------------------------

  predicate Strict(c: seq<CurvePoint>) {
    forall i, j :: 0 <= i < j < |c| ==> c[i].x < c[j].x && c[i].y < c[j].y
  }

  lemma SwapStrict(c: seq<CurvePoint>)
    requires Strict(c)
    ensures Strict(Swap(c)) && Swap(Swap(c)) == c
  {}

  /** A curve passes through its points. */
  lemma EvalAtPoint(c: seq<CurvePoint>, i: nat)
    requires Strict(c) && i < |c|
    ensures Eval(c, c[i].x) == c[i].y
  {
    var k := Segment(c, 0, c[i].x);
    assert k == i;
    if i > 0 {
      var dy, dx := c[i].y - c[i - 1].y, c[i].x - c[i - 1].x;
      ExactQuotient(dy, dx);
    }
  }

  lemma ExactQuotient(dy: int, dx: int)
    requires dy >= 0 && dx > 0
    ensures Quotient(dy * dx, dx) == dy
  {
    DivAtMost(dy * dx, dx, dy);
    var q := dy * dx / dx;
    assert dy * dx == q * dx + dy * dx % dx;
    if q < dy { MulOrder(dx, q + 1, dy); }
  }

  /** The linear interpolation between two points, rounded down. */
  function Along(a: CurvePoint, b: CurvePoint, x: int): int
    requires a.x < b.x
  {
    a.y + (b.y - a.y) * (x - a.x) / (b.x - a.x)
  }

  lemma AlongStart(a: CurvePoint, b: CurvePoint)
    requires a.x < b.x
    ensures Along(a, b, a.x) == a.y
  {
    assert (b.y - a.y) * (a.x - a.x) == 0;
  }

  lemma AlongIsInterpolated(a: CurvePoint, b: CurvePoint, x: int)
    requires a.x < x <= b.x && a.y <= b.y
    ensures Along(a, b, x) == Interpolate(a, b, x)
  {
    MulOrder(b.y - a.y, 0, x - a.x);
  }

  /** Inside segment k the curve is its linear interpolation, ends included. */
  lemma EvalInSegment(c: seq<CurvePoint>, k: nat, x: int)
    requires Strict(c) && 0 < k < |c| && c[k - 1].x <= x <= c[k].x
    ensures Eval(c, x) == Along(c[k - 1], c[k], x)
  {
    if x == c[k - 1].x {
      EvalAtPoint(c, k - 1);
      AlongStart(c[k - 1], c[k]);
    } else {
      assert Segment(c, 0, x) == k;
      AlongIsInterpolated(c[k - 1], c[k], x);
    }
  }

  lemma Divided(n: int, d: int) returns (q: int, r: int)
    requires n >= 0 && d > 0
    ensures q == n / d && n == q * d + r && 0 <= r < d
  {
    q, r := n / d, n % d;
  }

  /** Rounding down twice loses less than one step of the outer curve and one more. */
  lemma RoundedTwice(dx: int, dy: int, ny: int)
    requires dx > 0 && dy > 0 && 0 <= ny <= dy
    ensures var nx := dx * ny / dy; var back := dy * nx / dx;
            0 <= nx <= dx && 0 <= back <= ny && (ny - back) * dx < dy + dx
  {
    MulOrder(dx, ny, dy);
    DivAtMost(dx * ny, dy, dx);
    var nx, r := Divided(dx * ny, dy);
    MulOrder(dy, 0, nx);
    var back, r1 := Divided(dy * nx, dx);
    assert dy * nx == nx * dy && dx * ny == ny * dx;
    DivAtMost(dy * nx, dx, ny);
    assert (ny - back) * dx == ny * dx - back * dx == r + r1;
  }

  /** `back` falls short of `y` by less than one step of the segment, plus one. */
  predicate FallsShortLittle(a: CurvePoint, b: CurvePoint, y: int, back: int) {
    back <= y && (y - back) * (b.x - a.x) < (b.y - a.y) + (b.x - a.x)
  }

  function SwapPoint(p: CurvePoint): CurvePoint { CurvePoint(p.y, p.x) }

  lemma ThereAndBack(a: CurvePoint, b: CurvePoint, y: int)
    requires a.x < b.x && a.y < b.y && a.y <= y <= b.y
    ensures var x := Along(SwapPoint(a), SwapPoint(b), y);
            a.x <= x <= b.x && FallsShortLittle(a, b, y, Along(a, b, x))
  {
    var dx, dy, ny := b.x - a.x, b.y - a.y, y - a.y;
    RoundedTwice(dx, dy, ny);
    var x := Along(SwapPoint(a), SwapPoint(b), y);
    assert x - a.x == dx * ny / dy;
    assert Along(a, b, x) == a.y + dy * (x - a.x) / dx;
  }

  /** The number of a segment whose ys enclose `y`. */
  lemma SegmentOf(c: seq<CurvePoint>, y: int) returns (k: nat)
    requires Strict(c) && |c| >= 2 && c[0].y <= y <= c[|c| - 1].y
    ensures 0 < k < |c| && c[k - 1].y <= y <= c[k].y
  {
    k := Segment(Swap(c), 0, y);
    if k == 0 {
      k := 1;
    } else {
      assert Swap(c)[k - 1].x < y;
    }
  }

  lemma InverseInSegment(c: seq<CurvePoint>, k: nat, y: int)
    requires Strict(c) && 0 < k < |c| && c[k - 1].y <= y <= c[k].y
    ensures Inverse(c, y) == Along(SwapPoint(c[k - 1]), SwapPoint(c[k]), y)
  {
    SwapStrict(c);
    EvalInSegment(Swap(c), k, y);
  }

  /** Going from a y to an x and back never overshoots, and falls short by less than one
      step of the segment plus one. */
  lemma EvalOfInverse(c: seq<CurvePoint>, y: int) returns (k: nat)
    requires Strict(c) && |c| >= 2 && c[0].y <= y <= c[|c| - 1].y
    ensures 0 < k < |c| && c[k - 1].y <= y <= c[k].y
    ensures FallsShortLittle(c[k - 1], c[k], y, Eval(c, Inverse(c, y)))
  {
    k := SegmentOf(c, y);
    InverseInSegment(c, k, y);
    ThereAndBack(c[k - 1], c[k], y);
    EvalInSegment(c, k, Inverse(c, y));
  }

  /** Every segment rises at least as much as it runs. */
  predicate Steep(c: seq<CurvePoint>) {
    forall k :: 0 < k < |c| ==> c[k].y - c[k - 1].y >= c[k].x - c[k - 1].x
  }

  lemma LossBelowTwo(loss: int, dx: int, dy: int)
    requires 0 < dx <= dy && loss * dy < dx + dy
    ensures loss < 2
  {
    if loss >= 2 { MulOrder(dy, 2, loss); }
  }

  /** The other way round, which is the same on the exchanged curve: a steep curve loses
      at most one. */
  lemma InverseOfEval(c: seq<CurvePoint>, x: int) returns (k: nat)
    requires Strict(c) && |c| >= 2 && c[0].x <= x <= c[|c| - 1].x
    ensures 0 < k < |c| && c[k - 1].x <= x <= c[k].x
    ensures FallsShortLittle(SwapPoint(c[k - 1]), SwapPoint(c[k]), x, Inverse(c, Eval(c, x)))
    ensures Steep(c) ==> Inverse(c, Eval(c, x)) == x || Inverse(c, Eval(c, x)) == x - 1
  {
    SwapStrict(c);
    k := EvalOfInverse(Swap(c), x);
    if Steep(c) {
      LossBelowTwo(x - Inverse(c, Eval(c, x)), c[k].x - c[k - 1].x, c[k].y - c[k - 1].y);
    }
  }

  // ----- widths ----------------------------------------------------------

  predicate Fits(n: int, bits: nat)
    requires bits == 32 || bits == 64
  {
    var half := if bits == 32 then 0x8000_0000 else 0x8000_0000_0000_0000;
    -half <= n < half
  }

  /** The differences and the product of EvaluateCurve on the way to the value at `x`. */
  predicate WayFits(c: seq<CurvePoint>, x: int) {
    var k := Segment(c, 0, x);
    0 < k < |c| ==>
      && Fits(c[k].x - c[k - 1].x, 32) && Fits(c[k].y - c[k - 1].y, 32) && Fits(x - c[k - 1].x, 32)
      && Fits((c[k].y - c[k - 1].y) * (x - c[k - 1].x), 64)
  }

  /** Some input is interpolated up to point number `k`: it lies right of all before it. */
  predicate Reached(c: seq<CurvePoint>, k: nat) {
    0 < k < |c| && forall j :: 0 <= j < k ==> c[j].x < c[k].x
  }

  predicate StepFits(c: seq<CurvePoint>, k: nat)
    requires 0 < k < |c|
  {
    Fits(c[k].x - c[k - 1].x, 32) && Fits(c[k].y - c[k - 1].y, 32)
  }

  lemma StepMakesWay(c: seq<CurvePoint>, x: int)
    requires var k := Segment(c, 0, x); 0 < k < |c| ==> StepFits(c, k)
    ensures WayFits(c, x)
  {
    var k := Segment(c, 0, x);
    if 0 < k < |c| {
      ProductFits(c[k].y - c[k - 1].y, x - c[k - 1].x);
    }
  }

  lemma ProductFits(a: int, b: int)
    requires Fits(a, 32) && 0 < b && Fits(b, 32)
    ensures Fits(a * b, 64)
  {
    if a >= 0 {
      MulOrder(a, b, 0x8000_0000);
    } else {
      MulOrder(-a, b, 0x8000_0000);
      assert (-a) * b == -(a * b);
    }
  }

  lemma WaysMakeStep(c: seq<CurvePoint>, k: nat)
    requires Reached(c, k) && WayFits(c, c[k].x)
    ensures StepFits(c, k)
  {
    assert Segment(c, 0, c[k].x) == k;
  }

  lemma StepsMakeWay(c: seq<CurvePoint>, x: int)
    requires forall k :: 0 <= k < |c| && Reached(c, k) ==> StepFits(c, k)
    ensures WayFits(c, x)
  {
    var k := Segment(c, 0, x);
    assert 0 < k < |c| ==> Reached(c, k);
    StepMakesWay(c, x);
  }

  /** No 32-bit input overflows exactly when every step up to a point that is reached fits. */
  lemma WidthIsEnough(c: seq<CurvePoint>)
    requires forall k :: 0 <= k < |c| ==> Fits(c[k].x, 32) && Fits(c[k].y, 32)
    ensures (forall x :: Fits(x, 32) ==> WayFits(c, x)) <==>
            (forall k :: 0 <= k < |c| && Reached(c, k) ==> StepFits(c, k))
  {
    if forall x :: Fits(x, 32) ==> WayFits(c, x) {
      forall k | 0 <= k < |c| && Reached(c, k)
        ensures StepFits(c, k)
      {
        WaysMakeStep(c, k);
      }
    } else {
      var x :| Fits(x, 32) && !WayFits(c, x);
      if forall k :: 0 <= k < |c| && Reached(c, k) ==> StepFits(c, k) {
        StepsMakeWay(c, x);
      }
    }
  }

  /** Coordinates of at most half the 32-bit range always fit, and so do the values. */
  lemma StaysInWidth(c: seq<CurvePoint>, x: int)
    requires c != []
    requires forall i :: 0 <= i < |c| ==> -0x4000_0000 <= c[i].x < 0x4000_0000 && -0x4000_0000 <= c[i].y < 0x4000_0000
    ensures WayFits(c, x) && -0x4000_0000 <= Eval(c, x) < 0x4000_0000
  {
    EvalBetween(c, x, -0x4000_0000, 0x3fff_ffff);
    StepMakesWay(c, x);
  }

  // ----- the loops -------------------------------------------------------

  method EvaluateCurve(c: seq<CurvePoint>, input: int) returns (value: int)
    ensures value == Eval(c, input)
  {
    if |c| == 0 {
      return 0;
    }
    if input <= c[0].x {
      return c[0].y;
    }
    for i := 1 to |c|
      invariant Segment(c, 0, input) == Segment(c, i, input)
    {
      if input <= c[i].x {
        var a, b := c[i - 1], c[i];
        var dx := b.x - a.x;
        if dx <= 0 {
          return b.y;
        }
        return a.y + Quotient((b.y - a.y) * (input - a.x), dx);
      }
    }
    value := c[|c| - 1].y;
  }

  method EvaluateCurveInverse(c: seq<CurvePoint>, output: int) returns (value: int)
    ensures value == Inverse(c, output)
  {
    if |c| == 0 {
      return 0;
    }
    if output <= c[0].y {
      return c[0].x;
    }
    for i := 1 to |c|
      invariant Segment(Swap(c), 0, output) == Segment(Swap(c), i, output)
    {
      if output <= c[i].y {
        var a, b := c[i - 1], c[i];
        var dy := b.y - a.y;
        if dy <= 0 {
          return b.x;
        }
        return a.x + Quotient((b.x - a.x) * (output - a.y), dy);
      }
    }
    value := c[|c| - 1].x;
  }
}
