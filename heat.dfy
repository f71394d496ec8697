/** The explicit five-point scheme for the 2-D heat equation that every solver
    runs: the grid, the derived time step, one step of the stencil, repeated
    steps, and what they preserve. Values are reals; floating-point rounding is
    not modelled. */
module Heat {
  import opened Wrappers

  /** A temperature field `u[i][j]`: Nx rows (index i) of Ny cells (index j). */
  type Grid = seq<seq<real>>

  function Width(g: Grid): nat
  {
    if |g| == 0 then 0 else |g[0]|
  }

  /** Every row has the same length. */
  predicate Rect(g: Grid)
  {
    forall i | 0 <= i < |g| :: |g[i]| == Width(g)
  }

  /** Cell (i, j) of an nx-by-ny grid is off the first and last row and column,
      the cells the solvers' loops `1 <= i < Nx-1`, `1 <= j < Ny-1` visit. */
  predicate Interior(i: int, j: int, nx: int, ny: int)
  {
    1 <= i < nx - 1 && 1 <= j < ny - 1
  }

  /** How many times `for (x = lo; x < hi; x++)` runs its body. */
  function Trips(lo: int, hi: int): nat
  {
    if lo < hi then hi - lo else 0
  }

  /** C's `/` on `int`: the quotient truncated toward zero. */
  function CDiv(a: int, b: int): int
    requires b > 0
  {
    if a >= 0 then a / b else -((-a) / b)
  }

  /** Multiplying by a positive factor keeps an order. */
  lemma MulMono(a: int, b: int, m: int)
    requires a <= b && m > 0
    ensures a * m <= b * m
  {
    assert b * m - a * m == (b - a) * m;
  }

  /** Splitting `q * m + r` back into quotient and remainder, the fact behind both
      row-major flattening and a collapsed loop's iteration numbering. */
  lemma DivModPair(q: int, r: int, m: int)
    requires m > 0 && 0 <= r < m
    ensures (q * m + r) / m == q && (q * m + r) % m == r
  {
    var k := q * m + r;
    var q', r' := k / m, k % m;
    assert k == q' * m + r' && 0 <= r' < m;
    if q' > q {
      assert (q + 1) * m == q * m + m;
      MulMono(q + 1, q', m);
    } else if q' < q {
      MulMono(q' + 1, q, m);
    }
  }

  /** A flat index below `rows * m` has its quotient below `rows`. */
  lemma DivBelow(k: int, rows: int, m: int)
    requires m > 0 && 0 <= k < rows * m
    ensures 0 <= k / m < rows && 0 <= k % m < m
  {
    var q := k / m;
    assert k == q * m + k % m;
    if q >= rows {
      MulMono(rows, q, m);
    }
  }

  /** Every value of the field lies in [lo, hi]. */
  predicate Within(g: Grid, lo: real, hi: real)
  {
    forall i, j | 0 <= i < |g| && 0 <= j < |g[i]| :: lo <= g[i][j] <= hi
  }

  /** Grid spacing, diffusivity and time step. */
  datatype Params = Params(dx: real, dy: real, alpha: real, dt: real)

  predicate ValidParams(p: Params)
  {
    p.dx > 0.0 && p.dy > 0.0
  }

  // ---------------------------------------------------------------- the physical set-up

  /** The domain [0, 1] x [0, 1] and the diffusivity every solver hard-codes. */
  const DomainX: real := 1.0
  const DomainY: real := 1.0
  const Diffusivity: real := 0.0001
  /** The safety factor in `dt = 0.25 * min(dx^2, dy^2) / alpha`. */
  const Safety: real := 0.25

  function Min(a: real, b: real): real
  {
    if a <= b then a else b
  }

  /** `dx = Lx/(Nx-1)`, `dy = Ly/(Ny-1)`, `dt = 0.25*min(dx^2, dy^2)/alpha`. With
      one point along an axis the source divides by zero (an IEEE infinity);
      with none or a negative count the spacing is non-positive and the loops
      are empty. There is no parameter set for any of these. */
  function Derive(nx: int, ny: int): Option<Params>
  {
    if nx < 2 || ny < 2 then None
    else
      var dx := DomainX / (nx - 1) as real;
      var dy := DomainY / (ny - 1) as real;
      Some(Params(dx, dy, Diffusivity, Safety * Min(dx * dx, dy * dy) / Diffusivity))
  }

  /** The weights `alpha*dt/dx^2` and `alpha*dt/dy^2` a neighbour contributes. */
  function Rx(p: Params): real
    requires ValidParams(p)
  {
    p.alpha * p.dt / (p.dx * p.dx)
  }

  function Ry(p: Params): real
    requires ValidParams(p)
  {
    p.alpha * p.dt / (p.dy * p.dy)
  }

  /** The stability bound `alpha*dt*(1/dx^2 + 1/dy^2) <= 1/2` with non-negative weights. */
  predicate Stable(p: Params)
  {
    ValidParams(p) && 0.0 <= Rx(p) && 0.0 <= Ry(p) && Rx(p) + Ry(p) <= 0.5
  }

  /** The derived time step gives each neighbour weight at most 1/4, so the scheme
      meets the stability bound. */
  lemma DerivedIsStable(nx: int, ny: int)
    ensures Derive(nx, ny).Some? <==> nx >= 2 && ny >= 2
    ensures Derive(nx, ny).Some? ==>
              var p := Derive(nx, ny).value;
              ValidParams(p) && 0.0 <= Rx(p) <= 0.25 && 0.0 <= Ry(p) <= 0.25 && Stable(p)
  {
    if nx >= 2 && ny >= 2 {
      var p := Derive(nx, ny).value;
      var dx2, dy2 := p.dx * p.dx, p.dy * p.dy;
      var m := Min(dx2, dy2);
      assert p.dx > 0.0 && p.dy > 0.0;
      assert dx2 > 0.0 && dy2 > 0.0;
      assert p.alpha * p.dt == Safety * m;
      WeightAtMostQuarter(m, dx2);
      WeightAtMostQuarter(m, dy2);
    }
  }

  lemma WeightAtMostQuarter(m: real, d: real)
    requires 0.0 < m <= d
    ensures 0.0 <= Safety * m / d <= 0.25
  {
    assert m / d <= 1.0;
  }

  // ---------------------------------------------------------------- one cell, one step

  /** The update at one cell from its own value and its four neighbours:
      `u + alpha*dt*((down - 2u + up)/dx^2 + (right - 2u + left)/dy^2)`, where up and
      down are rows i-1 and i+1, left and right columns j-1 and j+1. */
  function Stencil(c: real, up: real, down: real, left: real, right: real, p: Params): real
    requires ValidParams(p)
  {
    var uxx := (down - 2.0 * c + up) / (p.dx * p.dx);
    var uyy := (right - 2.0 * c + left) / (p.dy * p.dy);
    c + p.alpha * p.dt * (uxx + uyy)
  }

  /** The update is a weighted average of the five values, with weights
      1 - 2Rx - 2Ry on the cell, Rx on each row neighbour and Ry on each column neighbour. */
  lemma StencilWeights(c: real, up: real, down: real, left: real, right: real, p: Params)
    requires ValidParams(p)
    ensures Stencil(c, up, down, left, right, p)
         == (1.0 - 2.0 * Rx(p) - 2.0 * Ry(p)) * c + Rx(p) * (up + down) + Ry(p) * (left + right)
  {
    SquareScale(p.alpha * p.dt, down - 2.0 * c + up, p.dx);
    SquareScale(p.alpha * p.dt, right - 2.0 * c + left, p.dy);
  }

  /** Under the stability bound the new value lies between the least and the
      greatest of the five old ones: the discrete maximum principle. */
  lemma StencilWithin(c: real, up: real, down: real, left: real, right: real, p: Params, lo: real, hi: real)
    requires Stable(p)
    requires lo <= c <= hi && lo <= up <= hi && lo <= down <= hi && lo <= left <= hi && lo <= right <= hi
    ensures lo <= Stencil(c, up, down, left, right, p) <= hi
  {
    StencilWeights(c, up, down, left, right, p);
    AverageWithin(Stencil(c, up, down, left, right, p), Rx(p), Ry(p), c, up, down, left, right, lo, hi);
  }

  /** A combination with non-negative weights summing to one stays within the
      bounds of the values combined. */
  lemma AverageWithin(s: real, rx: real, ry: real, c: real, up: real, down: real, left: real, right: real,
                      lo: real, hi: real)
    requires s == (1.0 - 2.0 * rx - 2.0 * ry) * c + rx * (up + down) + ry * (left + right)
    requires rx >= 0.0 && ry >= 0.0 && rx + ry <= 0.5
    requires lo <= c <= hi && lo <= up <= hi && lo <= down <= hi && lo <= left <= hi && lo <= right <= hi
    ensures lo <= s <= hi
  {
    var w := 1.0 - 2.0 * rx - 2.0 * ry;
    MulNonNeg(w, c - lo);
    MulNonNeg(rx, up + down - lo - lo);
    MulNonNeg(ry, left + right - lo - lo);
    MulNonNeg(w, hi - c);
    MulNonNeg(rx, hi + hi - up - down);
    MulNonNeg(ry, hi + hi - left - right);
  }

  lemma SquareScale(a: real, x: real, e: real)
    requires e > 0.0
    ensures a * (x / (e * e)) == (a / (e * e)) * x
  {
    assert e * e > 0.0;
    assert x == (x / (e * e)) * (e * e);
  }

  lemma MulNonNeg(a: real, b: real)
    requires a >= 0.0 && b >= 0.0
    ensures a * b >= 0.0
  {
  }

  /** The new value of an interior cell, read from the old field only. */
  function StepAt(g: Grid, i: int, j: int, p: Params): real
    requires Rect(g) && ValidParams(p) && Interior(i, j, |g|, Width(g))
  {
    Stencil(g[i][j], g[i - 1][j], g[i + 1][j], g[i][j - 1], g[i][j + 1], p)
  }

  /** One time step: every interior cell takes its stencil value computed from
      the old field; boundary cells keep their value. */
  function Step(g: Grid, p: Params): (r: Grid)
    requires Rect(g) && ValidParams(p)
    ensures Rect(r) && |r| == |g| && Width(r) == Width(g)
  {
    seq(|g|, i requires 0 <= i < |g| =>
      seq(Width(g), j requires 0 <= j < Width(g) =>
        if Interior(i, j, |g|, Width(g)) then StepAt(g, i, j, p) else g[i][j]))
  }

  /** `n` time steps. */
  function Iterate(g: Grid, p: Params, n: nat): (r: Grid)
    requires Rect(g) && ValidParams(p)
    ensures Rect(r) && |r| == |g| && Width(r) == Width(g)
  {
    if n == 0 then g else Step(Iterate(g, p, n - 1), p)
  }

  /** A new interior value depends on the old field only at the cell and its four
      neighbours: two fields that agree there give the same new value. */
  lemma StepIsLocal(g: Grid, h: Grid, p: Params, i: int, j: int)
    requires Rect(g) && Rect(h) && ValidParams(p)
    requires |g| == |h| && Width(g) == Width(h) && Interior(i, j, |g|, Width(g))
    requires g[i][j] == h[i][j] && g[i - 1][j] == h[i - 1][j] && g[i + 1][j] == h[i + 1][j]
    requires g[i][j - 1] == h[i][j - 1] && g[i][j + 1] == h[i][j + 1]
    ensures Step(g, p)[i][j] == Step(h, p)[i][j]
  {
  }

  /** Boundary cells keep their initial value for any number of steps. */
  lemma {:induction false} BoundaryFixed(g: Grid, p: Params, n: nat, i: int, j: int)
    requires Rect(g) && ValidParams(p)
    requires 0 <= i < |g| && 0 <= j < Width(g) && !Interior(i, j, |g|, Width(g))
    ensures Iterate(g, p, n)[i][j] == g[i][j]
  {
    if n > 0 {
      BoundaryFixed(g, p, n - 1, i, j);
    }
  }

  /** One step under the stability bound keeps the field within any bounds it started in. */
  lemma StepWithin(g: Grid, p: Params, lo: real, hi: real)
    requires Rect(g) && Stable(p) && Within(g, lo, hi)
    ensures Within(Step(g, p), lo, hi)
  {
    var r := Step(g, p);
    forall i, j | 0 <= i < |r| && 0 <= j < |r[i]|
      ensures lo <= r[i][j] <= hi
    {
      if Interior(i, j, |g|, Width(g)) {
        StencilWithin(g[i][j], g[i - 1][j], g[i + 1][j], g[i][j - 1], g[i][j + 1], p, lo, hi);
      }
    }
  }

  /** Stability over a whole run: no value ever leaves the range of the initial field. */
  lemma {:induction false} IterateWithin(g: Grid, p: Params, n: nat, lo: real, hi: real)
    requires Rect(g) && Stable(p) && Within(g, lo, hi)
    ensures Within(Iterate(g, p, n), lo, hi)
  {
    if n > 0 {
      IterateWithin(g, p, n - 1, lo, hi);
      StepWithin(Iterate(g, p, n - 1), p, lo, hi);
    }
  }

  /** Two fields that share their boundary keep sharing it after one step each. */
  predicate SameBoundary(g: Grid, h: Grid)
  {
    Rect(g) && Rect(h) && |g| == |h| && Width(g) == Width(h) &&
    forall i, j | 0 <= i < |g| && 0 <= j < Width(g) && !Interior(i, j, |g|, Width(g)) :: g[i][j] == h[i][j]
  }

  lemma {:induction false} IterateSameBoundary(g: Grid, p: Params, n: nat)
    requires Rect(g) && ValidParams(p)
    ensures SameBoundary(Iterate(g, p, n), g)
  {
    forall i, j | 0 <= i < |g| && 0 <= j < Width(g) && !Interior(i, j, |g|, Width(g))
      ensures Iterate(g, p, n)[i][j] == g[i][j]
    {
      BoundaryFixed(g, p, n, i, j);
    }
  }

  // ---------------------------------------------------------------- fields in memory

  /** Any two time levels of a run share their boundary. */
  lemma IterateBoundariesAgree(g: Grid, p: Params, m: nat, n: nat)
    requires Rect(g) && ValidParams(p)
    ensures SameBoundary(Iterate(g, p, m), Iterate(g, p, n))
  {
    IterateSameBoundary(g, p, m);
    IterateSameBoundary(g, p, n);
  }

  /** The initial field: the initial condition evaluated at every cell. */
  function InitGrid(ic: (int, int) -> real, nx: nat, ny: nat): (g: Grid)
    ensures Rect(g) && |g| == nx && (nx > 0 ==> Width(g) == ny)
  {
    seq(nx, i requires 0 <= i < nx => seq(ny, j requires 0 <= j < ny => ic(i, j)))
  }

  /** The field held in a two-dimensional array. */
  function Snapshot(a: array2<real>): (g: Grid)
    reads a
    ensures Rect(g) && |g| == a.Length0 && (a.Length0 > 0 ==> Width(g) == a.Length1)
    ensures forall i, j | 0 <= i < a.Length0 && 0 <= j < a.Length1 :: g[i][j] == a[i, j]
  {
    seq(a.Length0, i requires 0 <= i < a.Length0 reads a =>
      seq(a.Length1, j requires 0 <= j < a.Length1 reads a => a[i, j]))
  }

  /** An array holds a field when it has its shape and its values. */
  lemma SnapshotIs(a: array2<real>, g: Grid)
    requires |g| == a.Length0 && forall i | 0 <= i < |g| :: |g[i]| == a.Length1
    requires forall i, j | 0 <= i < a.Length0 && 0 <= j < a.Length1 :: a[i, j] == g[i][j]
    ensures Snapshot(a) == g
  {
    var s := Snapshot(a);
    forall i | 0 <= i < |g| ensures s[i] == g[i] {
    }
  }

  /** The stencil read straight from the array is the step of the field it holds. */
  lemma StencilOfSnapshot(u: array2<real>, g: Grid, i: int, j: int, p: Params)
    requires g == Snapshot(u) && ValidParams(p) && Interior(i, j, u.Length0, u.Length1)
    ensures Stencil(u[i, j], u[i - 1, j], u[i + 1, j], u[i, j - 1], u[i, j + 1], p) == StepAt(g, i, j, p)
  {
  }
}
