/** The single-threaded reference solver: a fixed 200 x 200 grid, 1000 steps,
    two arrays `u` and `uNew`, a stencil sweep into `uNew` and a copy of the
    interior back into `u` at every step. */
module SerialHeat {
  import opened Heat

  /** The problem size the serial and CUDA solvers hard-code; their command line
      is never read. */
  const FixedNx: int := 200
  const FixedNy: int := 200
  const FixedNt: int := 1000

  /** The initial-condition loop: every cell gets the initial condition at its
      indices (the Gaussian pulse itself is a parameter here). */
  method InitField(u: array2<real>, ic: (int, int) -> real)
    modifies u
    ensures Snapshot(u) == InitGrid(ic, u.Length0, u.Length1)
  {
    var i := 0;
    while i < u.Length0
      invariant 0 <= i <= u.Length0
      invariant forall a, b | 0 <= a < i && 0 <= b < u.Length1 :: u[a, b] == ic(a, b)
    {
      var j := 0;
      while j < u.Length1
        invariant 0 <= j <= u.Length1
        invariant forall a, b | 0 <= a < i && 0 <= b < u.Length1 :: u[a, b] == ic(a, b)
        invariant forall b | 0 <= b < j :: u[i, b] == ic(i, b)
      {
        u[i, j] := ic(i, j);
        j := j + 1;
      }
      i := i + 1;
    }
    SnapshotIs(u, InitGrid(ic, u.Length0, u.Length1));
  }

  /** The stencil sweep: every interior `uNew[i][j]` gets the update computed from
      `u` at (i, j) and its four neighbours; `u` is only read, and no other cell of
      `uNew` is written. `writes` counts the assignments to `uNew`. */
  method StencilSweep(u: array2<real>, uNew: array2<real>, p: Params) returns (ghost writes: nat)
    requires u != uNew && u.Length0 == uNew.Length0 && u.Length1 == uNew.Length1 && ValidParams(p)
    modifies uNew
    ensures forall i, j | Interior(i, j, u.Length0, u.Length1) :: uNew[i, j] == StepAt(old(Snapshot(u)), i, j, p)
    ensures forall i, j | 0 <= i < u.Length0 && 0 <= j < u.Length1 && !Interior(i, j, u.Length0, u.Length1) ::
              uNew[i, j] == old(uNew[i, j])
    ensures writes == Trips(1, u.Length0 - 1) * Trips(1, u.Length1 - 1)
  {
    var nx, ny := u.Length0, u.Length1;
    ghost var g := Snapshot(u);
    writes := 0;
    var i := 1;
    while i < nx - 1
      invariant 1 <= i <= 1 + Trips(1, nx - 1)
      invariant forall a, b | Interior(a, b, nx, ny) && a < i :: uNew[a, b] == StepAt(g, a, b, p)
      invariant forall a, b | 0 <= a < nx && 0 <= b < ny && !(Interior(a, b, nx, ny) && a < i) ::
                  uNew[a, b] == old(uNew[a, b])
      invariant writes == (i - 1) * Trips(1, ny - 1)
    {
      var j := 1;
      while j < ny - 1
        invariant 1 <= j <= 1 + Trips(1, ny - 1)
        invariant forall a, b | Interior(a, b, nx, ny) && (a < i || (a == i && b < j)) ::
                    uNew[a, b] == StepAt(g, a, b, p)
        invariant forall a, b | 0 <= a < nx && 0 <= b < ny && !(Interior(a, b, nx, ny) && (a < i || (a == i && b < j))) ::
                    uNew[a, b] == old(uNew[a, b])
        invariant writes == (i - 1) * Trips(1, ny - 1) + (j - 1)
      {
        uNew[i, j] := Stencil(u[i, j], u[i - 1, j], u[i + 1, j], u[i, j - 1], u[i, j + 1], p);
        assert uNew[i, j] == StepAt(g, i, j, p);
        writes := writes + 1;
        j := j + 1;
      }
      assert j - 1 == Trips(1, ny - 1);
      MulSucc(i - 1, Trips(1, ny - 1));
      i := i + 1;
    }
    assert i - 1 == Trips(1, nx - 1);
  }

  /** `(k + 1) * m` unfolds one factor, kept apart from the loops so the solver does
      not explore the products itself. */
  lemma MulSucc(k: int, m: int)
    ensures (k + 1) * m == k * m + m
  {
  }

  /** The copy-back: `u` takes `uNew`'s interior and keeps its own boundary. */
  method CopyInterior(u: array2<real>, uNew: array2<real>)
    requires u != uNew && u.Length0 == uNew.Length0 && u.Length1 == uNew.Length1
    modifies u
    ensures forall i, j | 0 <= i < u.Length0 && 0 <= j < u.Length1 ::
              u[i, j] == if Interior(i, j, u.Length0, u.Length1) then uNew[i, j] else old(u[i, j])
  {
    var nx, ny := u.Length0, u.Length1;
    var i := 1;
    while i < nx - 1
      invariant 1 <= i <= 1 + Trips(1, nx - 1)
      invariant forall a, b | 0 <= a < nx && 0 <= b < ny ::
                  u[a, b] == if Interior(a, b, nx, ny) && a < i then uNew[a, b] else old(u[a, b])
    {
      var j := 1;
      while j < ny - 1
        invariant 1 <= j <= 1 + Trips(1, ny - 1)
        invariant forall a, b | 0 <= a < nx && 0 <= b < ny ::
                    u[a, b] == if Interior(a, b, nx, ny) && (a < i || (a == i && b < j)) then uNew[a, b] else old(u[a, b])
      {
        u[i, j] := uNew[i, j];
        j := j + 1;
      }
      i := i + 1;
    }
  }

  /** One pass of the time loop's body: the sweep into `uNew`, then the copy-back.
      Afterwards `u` holds the field stepped once, and `uNew` shares `u`'s
      interior while keeping its own boundary. */
  method TimeStep(u: array2<real>, uNew: array2<real>, p: Params) returns (ghost writes: nat)
    requires u != uNew && u.Length0 == uNew.Length0 && u.Length1 == uNew.Length1 && ValidParams(p)
    modifies u, uNew
    ensures Snapshot(u) == Step(old(Snapshot(u)), p)
    ensures forall i, j | 0 <= i < u.Length0 && 0 <= j < u.Length1 ::
              uNew[i, j] == if Interior(i, j, u.Length0, u.Length1) then u[i, j] else old(uNew[i, j])
    ensures writes == Trips(1, u.Length0 - 1) * Trips(1, u.Length1 - 1)
  {
    ghost var before := Snapshot(u);
    writes := StencilSweep(u, uNew, p);
    CopyInterior(u, uNew);
    SnapshotIs(u, Step(before, p));
  }

  /** The time loop: `nt` sweeps, each followed by the copy-back. Afterwards `u`
      holds the field stepped `nt` times (none when `nt <= 0`); `writes` counts the
      stencil assignments over the run. */
  method TimeLoop(u: array2<real>, uNew: array2<real>, nt: int, p: Params) returns (ghost writes: nat)
    requires u != uNew && u.Length0 == uNew.Length0 && u.Length1 == uNew.Length1 && ValidParams(p)
    modifies u, uNew
    ensures Snapshot(u) == Iterate(old(Snapshot(u)), p, Trips(0, nt))
    ensures forall i, j | 0 <= i < u.Length0 && 0 <= j < u.Length1 ::
              uNew[i, j] == if Interior(i, j, u.Length0, u.Length1) && nt > 0 then u[i, j] else old(uNew[i, j])
    ensures writes == Trips(0, nt) * (Trips(1, u.Length0 - 1) * Trips(1, u.Length1 - 1))
  {
    ghost var g0 := Snapshot(u);
    ghost var cells := Trips(1, u.Length0 - 1) * Trips(1, u.Length1 - 1);
    var n := 0;
    writes := 0;
    while n < nt
      invariant 0 <= n <= Trips(0, nt)
      invariant Snapshot(u) == Iterate(g0, p, n)
      invariant forall i, j | 0 <= i < u.Length0 && 0 <= j < u.Length1 ::
                  uNew[i, j] == if Interior(i, j, u.Length0, u.Length1) && n > 0 then u[i, j] else old(uNew[i, j])
      invariant writes == n * cells
    {
      var w := TimeStep(u, uNew, p);
      MulSucc(n, cells);
      writes := writes + w;
      n := n + 1;
    }
    assert n == Trips(0, nt);
  }

  /** The three aligned result lines the serial and CUDA solvers print under their
      header (timing and throughput arrive already formatted). */
  function ResultLines(elapsed: string, mlups: string, center: string): seq<string>
  {
    [ResultLine("  Time           ", elapsed, " s"),
     ResultLine("  Throughput     ", mlups, " MLUPS"),
     ResultLine("  u_center (mid) ", center, "")]
  }

  /** One result line: a padded caption, a colon, the value and its unit. */
  function ResultLine(caption: string, value: string, unit: string): string
  {
    caption + ": " + value + unit
  }

  /** What the serial solver prints. */
  function SerialReport(elapsed: string, mlups: string, center: string): seq<string>
  {
    ["Serial run:"] + ResultLines(elapsed, mlups, center)
  }

  /** The serial program: set up the fixed 200 x 200 grid, run 1000 steps and print
      the report. `argv` is not consulted. The centre value printed is that of the
      field stepped 1000 times, and the stencil runs 1000 * 198 * 198 times. */
  method SerialMain(argv: seq<string>, ic: (int, int) -> real, elapsed: string, mlups: string,
                    format: real -> string) returns (stdout: seq<string>, ghost writes: nat)
    ensures Derive(FixedNx, FixedNy).Some?
    ensures stdout == SerialReport(elapsed, mlups,
               format(Iterate(InitGrid(ic, 200, 200), Derive(FixedNx, FixedNy).value, 1000)[100][100]))
    ensures writes == FixedNt * (FixedNx - 2) * (FixedNy - 2)
  {
    var nx, ny, nt := FixedNx, FixedNy, FixedNt;
    var p := Derive(nx, ny).value;
    var u := new real[nx, ny];
    var uNew := new real[nx, ny];
    InitField(u, ic);
    writes := TimeLoop(u, uNew, nt, p);
    FixedCount();
    assert CDiv(nx, 2) == 100 && CDiv(ny, 2) == 100;
    var center := u[CDiv(nx, 2), CDiv(ny, 2)];
    assert center == Snapshot(u)[100][100];
    stdout := SerialReport(elapsed, mlups, format(center));
  }

  /** The loops of the fixed-size run write `Nt * (Nx - 2) * (Ny - 2)` cells. */
  lemma FixedCount()
    ensures Trips(0, FixedNt) * (Trips(1, FixedNx - 1) * Trips(1, FixedNy - 1))
            == FixedNt * (FixedNx - 2) * (FixedNy - 2)
  {
    assert Trips(0, FixedNt) == FixedNt && Trips(1, FixedNx - 1) == FixedNx - 2 && Trips(1, FixedNy - 1) == FixedNy - 2;
  }
}
