/**
 * One explicit (forward-time, centred-space) step of the 2-D heat equation
 * on a rectangular grid with Dirichlet boundary value 0
 * (src/task_2_physics_problem/main.py).
 *
 * Arrays are indexed `u[i, j]` with `i` along x (length NX) and `j` along y
 * (length NY). All arithmetic is exact over `real`.
 */
module HeatEquation {

  const LX: real := 1.0
  const LY: real := 1.0
  /** Number of grid points along each axis. */
  const NX: nat := 101
  const NY: nat := 101
  /** Thermal diffusivity. */
  const K: real := 1.0

  /** Distance between neighbouring points of `n` evenly spaced points covering `[0, extent]`. */
  function Spacing(extent: real, n: nat): (d: real)
    requires n >= 2
    ensures d * (n - 1) as real == extent
    ensures extent > 0.0 ==> d > 0.0
  {
    extent / (n - 1) as real
  }

  /** `x**2`. */
  function Square(x: real): real {
    x * x
  }

  lemma SquarePositive(x: real)
    requires x != 0.0
    ensures Square(x) > 0.0
  {
    if x > 0.0 {
      calc { Square(x); == x * x; > 0.0; }
    } else {
      calc { Square(x); == (-x) * (-x); > 0.0; }
    }
  }

  lemma QuotientPositive(a: real, b: real)
    requires a > 0.0 && b > 0.0
    ensures a / b > 0.0
  {
    assert (a / b) * b == a;
  }

  /**
   * The time step: 0.8 of the stability limit `dx^2 / (4 k)` of the
   * explicit scheme, so strictly inside it.
   */
  function TimeStep(dx: real, k: real): (dt: real)
    requires k != 0.0
    ensures 4.0 * k * dt == 0.8 * Square(dx)
    ensures k > 0.0 && dx != 0.0 ==> 0.0 < dt < Square(dx) / (4.0 * k)
  {
    var limit := Square(dx) / (4.0 * k);
    if k > 0.0 && dx != 0.0 then
      SquarePositive(dx);
      QuotientPositive(Square(dx), 4.0 * k);
      0.8 * limit
    else
      0.8 * limit
  }

  /** Whether `(i, j)` lies in the first or last row or column of an `n0` by `n1` grid. */
  predicate OnBoundary(i: int, j: int, n0: int, n1: int) {
    i == 0 || i == n0 - 1 || j == 0 || j == n1 - 1
  }

  predicate BoundaryZero(u: array2<real>)
    reads u
  {
    forall i, j :: 0 <= i < u.Length0 && 0 <= j < u.Length1 && OnBoundary(i, j, u.Length0, u.Length1) ==>
      u[i, j] == 0.0
  }

  predicate UpperBound(u: array2<real>, m: real)
    reads u
  {
    forall i, j :: 0 <= i < u.Length0 && 0 <= j < u.Length1 ==> u[i, j] <= m
  }

  predicate LowerBound(u: array2<real>, m: real)
    reads u
  {
    forall i, j :: 0 <= i < u.Length0 && 0 <= j < u.Length1 ==> m <= u[i, j]
  }

  /** `u[r, :] = 0`. */
  method ZeroRow(u: array2<real>, r: nat)
    requires r < u.Length0
    modifies u
    ensures forall i, j :: 0 <= i < u.Length0 && 0 <= j < u.Length1 ==>
      u[i, j] == if i == r then 0.0 else old(u[i, j])
  {
    var j := 0;
    while j < u.Length1
      invariant 0 <= j <= u.Length1
      invariant forall a, b :: 0 <= a < u.Length0 && 0 <= b < u.Length1 ==>
        u[a, b] == if a == r && b < j then 0.0 else old(u[a, b])
    {
      u[r, j] := 0.0;
      j := j + 1;
    }
  }

  /** `u[:, c] = 0`. */
  method ZeroColumn(u: array2<real>, c: nat)
    requires c < u.Length1
    modifies u
    ensures forall i, j :: 0 <= i < u.Length0 && 0 <= j < u.Length1 ==>
      u[i, j] == if j == c then 0.0 else old(u[i, j])
  {
    var i := 0;
    while i < u.Length0
      invariant 0 <= i <= u.Length0
      invariant forall a, b :: 0 <= a < u.Length0 && 0 <= b < u.Length1 ==>
        u[a, b] == if b == c && a < i then 0.0 else old(u[a, b])
    {
      u[i, c] := 0.0;
      i := i + 1;
    }
  }

  /**
   * `u[0, :] = 0; u[-1, :] = 0; u[:, 0] = 0; u[:, -1] = 0`: the boundary
   * becomes 0 and every interior value is kept.
   */
  method ZeroBoundary(u: array2<real>)
    requires u.Length0 >= 1 && u.Length1 >= 1
    modifies u
    ensures forall i, j :: 0 <= i < u.Length0 && 0 <= j < u.Length1 ==>
      u[i, j] == if OnBoundary(i, j, u.Length0, u.Length1) then 0.0 else old(u[i, j])
    ensures BoundaryZero(u)
  {
    ZeroRow(u, 0);
    ZeroRow(u, u.Length0 - 1);
    ZeroColumn(u, 0);
    ZeroColumn(u, u.Length1 - 1);
  }

  /**
   * The FTCS value at interior point `(i, j)`: the old value plus `k dt`
   * times the centred second differences along x and y, read from `u` only.
   */
  function FtcsValue(u: array2<real>, i: int, j: int, k: real, dt: real, dx: real, dy: real): real
    requires 1 <= i < u.Length0 - 1 && 1 <= j < u.Length1 - 1
    requires dx != 0.0 && dy != 0.0
    reads u
  {
    SquarePositive(dx);
    SquarePositive(dy);
    u[i, j] + k * dt * (
      (u[i + 1, j] - 2.0 * u[i, j] + u[i - 1, j]) / Square(dx) +
      (u[i, j + 1] - 2.0 * u[i, j] + u[i, j - 1]) / Square(dy))
  }

  /** `v` has the shape of `u`, a zero boundary, and the FTCS value of `u` at every interior point. */
  predicate IsFtcsStep(u: array2<real>, v: array2<real>, k: real, dt: real, dx: real, dy: real)
    requires dx != 0.0 && dy != 0.0
    reads u, v
  {
    v.Length0 == u.Length0 && v.Length1 == u.Length1 &&
    forall i, j :: 0 <= i < v.Length0 && 0 <= j < v.Length1 ==>
      v[i, j] == if OnBoundary(i, j, u.Length0, u.Length1) then 0.0 else FtcsValue(u, i, j, k, dt, dx, dy)
  }

  /**
   * `u_new = u.copy()`, the FTCS update of the interior block
   * `u_new[1:-1, 1:-1]` from the old `u`, then the boundary of `u_new`
   * set to 0. The old array is left as it was.
   */
  method FtcsStep(u: array2<real>, k: real, dt: real, dx: real, dy: real) returns (v: array2<real>)
    requires u.Length0 >= 1 && u.Length1 >= 1
    requires dx != 0.0 && dy != 0.0
    ensures fresh(v)
    ensures unchanged(u)
    ensures IsFtcsStep(u, v, k, dt, dx, dy)
  {
    var n0, n1 := u.Length0, u.Length1;
    v := new real[n0, n1]((a, b) requires 0 <= a < n0 && 0 <= b < n1 reads u => u[a, b]);
    var i := 1;
    while i < n0 - 1
      invariant 1 <= i && (n0 >= 2 ==> i <= n0 - 1)
      invariant forall a, b :: 0 <= a < n0 && 0 <= b < n1 ==>
        v[a, b] == if 1 <= a < i && 1 <= b < n1 - 1 then FtcsValue(u, a, b, k, dt, dx, dy) else u[a, b]
    {
      var j := 1;
      while j < n1 - 1
        invariant 1 <= j && (n1 >= 2 ==> j <= n1 - 1)
        invariant forall a, b :: 0 <= a < n0 && 0 <= b < n1 ==>
          v[a, b] == if (1 <= a < i && 1 <= b < n1 - 1) || (a == i && 1 <= b < j)
                     then FtcsValue(u, a, b, k, dt, dx, dy) else u[a, b]
      {
        v[i, j] := FtcsValue(u, i, j, k, dt, dx, dy);
        j := j + 1;
      }
      i := i + 1;
    }
    ZeroBoundary(v);
  }

  /**
   * With equal spacing in x and y and the time step of `TimeStep`, the FTCS
   * value is the plain average of the point and its four neighbours.
   */
  lemma FtcsIsAverage(u: array2<real>, i: int, j: int, k: real, dx: real)
    requires 1 <= i < u.Length0 - 1 && 1 <= j < u.Length1 - 1
    requires k != 0.0 && dx != 0.0
    ensures FtcsValue(u, i, j, k, TimeStep(dx, k), dx, dx) ==
      (u[i, j] + u[i + 1, j] + u[i - 1, j] + u[i, j + 1] + u[i, j - 1]) / 5.0
  {
    SquarePositive(dx);
    ScaledSum(k * TimeStep(dx, k), Square(dx),
      u[i + 1, j] - 2.0 * u[i, j] + u[i - 1, j], u[i, j + 1] - 2.0 * u[i, j] + u[i, j - 1]);
  }

  /** `r (a/h + b/h) = (a + b) / 5` when `r = h / 5`. */
  lemma ScaledSum(r: real, h: real, a: real, b: real)
    requires h != 0.0 && r == 0.2 * h
    ensures r * (a / h + b / h) == 0.2 * (a + b)
  {
    var p, q := a / h, b / h;
    assert p * h == a && q * h == b;
    assert r * (p + q) == 0.2 * (p * h + q * h);
  }

  /**
   * Discrete maximum principle: for a grid with zero boundary, every upper
   * bound of `u` bounds the result of the step, so the step never raises
   * the maximum.
   */
  lemma MaximumPrinciple(u: array2<real>, v: array2<real>, k: real, dx: real, m: real)
    requires k != 0.0 && dx != 0.0
    requires u.Length0 >= 1 && u.Length1 >= 1 && BoundaryZero(u)
    requires IsFtcsStep(u, v, k, TimeStep(dx, k), dx, dx)
    requires UpperBound(u, m)
    ensures UpperBound(v, m)
  {
    assert OnBoundary(0, 0, u.Length0, u.Length1);
    forall i, j | 0 <= i < v.Length0 && 0 <= j < v.Length1
      ensures v[i, j] <= m
    {
      if !OnBoundary(i, j, u.Length0, u.Length1) {
        FtcsIsAverage(u, i, j, k, dx);
      }
    }
  }

  /**
   * The matching minimum principle: for a grid with zero boundary, every
   * lower bound of `u` bounds the result; in particular a non-negative
   * temperature field stays non-negative.
   */
  lemma MinimumPrinciple(u: array2<real>, v: array2<real>, k: real, dx: real, m: real)
    requires k != 0.0 && dx != 0.0
    requires u.Length0 >= 1 && u.Length1 >= 1 && BoundaryZero(u)
    requires IsFtcsStep(u, v, k, TimeStep(dx, k), dx, dx)
    requires LowerBound(u, m)
    ensures LowerBound(v, m)
  {
    assert OnBoundary(0, 0, u.Length0, u.Length1);
    forall i, j | 0 <= i < v.Length0 && 0 <= j < v.Length1
      ensures m <= v[i, j]
    {
      if !OnBoundary(i, j, u.Length0, u.Length1) {
        FtcsIsAverage(u, i, j, k, dx);
      }
    }
  }

  /**
   * The script from the spacing onwards, for an arbitrary initial field `u`
   * of NX by NY points: zero the boundary of `u`, take one FTCS step with
   * `dt = 0.8 dx^2 / (4 k)`, and return the new field, whose maximum does
   * not exceed that of `u` and which keeps every lower bound of `u`.
   */
  method HeatScript(u: array2<real>) returns (dx: real, dy: real, dt: real, uNew: array2<real>)
    requires u.Length0 == NX && u.Length1 == NY
    modifies u
    ensures dx == Spacing(LX, NX) && dy == Spacing(LY, NY) && dt == TimeStep(dx, K)
    ensures forall i, j :: 0 <= i < NX && 0 <= j < NY ==>
      u[i, j] == if OnBoundary(i, j, NX, NY) then 0.0 else old(u[i, j])
    ensures fresh(uNew) && IsFtcsStep(u, uNew, K, dt, dx, dy)
    ensures forall m :: UpperBound(u, m) ==> UpperBound(uNew, m)
    ensures forall m :: LowerBound(u, m) ==> LowerBound(uNew, m)
  {
    dx := Spacing(LX, NX);
    dy := Spacing(LY, NY);
    ZeroBoundary(u);
    dt := TimeStep(dx, K);
    uNew := FtcsStep(u, K, dt, dx, dy);
    forall m | UpperBound(u, m)
      ensures UpperBound(uNew, m)
    {
      MaximumPrinciple(u, uNew, K, dx, m);
    }
    forall m | LowerBound(u, m)
      ensures LowerBound(uNew, m)
    {
      MinimumPrinciple(u, uNew, K, dx, m);
    }
  }
}
