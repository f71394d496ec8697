/** The OpenMP solver: the grid size and step count come from the command line,
    the stencil and copy-back loops are `collapse(2)` parallel loops, the report
    is seven `Key: value` lines and the final field is dumped as CSV. */
module OmpHeat {
  import opened Wrappers
  import opened Text
  import opened Heat
  import SerialHeat

  /** Grid points along x and y, and the number of time steps. */
  datatype Size = Size(nx: int, ny: int, nt: int)

  /** The thread count the report prints; it is a constant, not the runtime's. */
  const Threads: int := 4

  /** The size selection from `argv` (whose first element is the program name):
      Nx and Ny from `argv[1]` and `argv[2]` when there are at least three
      arguments, Nt from `argv[3]` when there are at least four, otherwise
      200, 200 and 1000. `atoi` is the C library's, taken as given. */
  function SelectSize(argv: seq<string>, atoi: string -> int): (s: Size)
    ensures |argv| >= 3 ==> s.nx == atoi(argv[1]) && s.ny == atoi(argv[2])
    ensures |argv| < 3 ==> s.nx == 200 && s.ny == 200
    ensures |argv| >= 4 ==> s.nt == atoi(argv[3])
    ensures |argv| < 4 ==> s.nt == 1000
  {
    var nx := if |argv| >= 3 then atoi(argv[1]) else 200;
    var ny := if |argv| >= 3 then atoi(argv[2]) else 200;
    var nt := if |argv| >= 4 then atoi(argv[3]) else 1000;
    Size(nx, ny, nt)
  }

  /** The iteration space of a `collapse(2)` loop over the interior: iteration k
      of the single collapsed loop is cell (1 + k / m, 1 + k % m), with m the
      length of a row of the interior. */
  function Collapsed(nx: int, ny: int): seq<(int, int)>
  {
    var m := Trips(1, ny - 1);
    if m == 0 then []
    else seq(Trips(1, nx - 1) * m, k requires 0 <= k < Trips(1, nx - 1) * m => (1 + k / m, 1 + k % m))
  }

  /** Iteration k of the collapsed loop is an interior cell. */
  lemma CollapsedCell(nx: int, ny: int, k: int)
    requires 0 <= k < |Collapsed(nx, ny)|
    ensures Interior(Collapsed(nx, ny)[k].0, Collapsed(nx, ny)[k].1, nx, ny)
  {
    DivBelow(k, Trips(1, nx - 1), Trips(1, ny - 1));
  }

  /** Two different iterations of the collapsed loop visit different cells. */
  lemma CollapsedDistinct(nx: int, ny: int, k: int, l: int)
    requires 0 <= k < l < |Collapsed(nx, ny)|
    ensures Collapsed(nx, ny)[k] != Collapsed(nx, ny)[l]
  {
    var m := Trips(1, ny - 1);
    assert k == (k / m) * m + k % m;
    assert l == (l / m) * m + l % m;
  }

  /** Every interior cell (i, j) is visited, by iteration (i-1)(Ny-2) + (j-1). */
  lemma CollapsedVisits(nx: int, ny: int, i: int, j: int)
    requires Interior(i, j, nx, ny)
    ensures 0 <= (i - 1) * Trips(1, ny - 1) + (j - 1) < |Collapsed(nx, ny)|
    ensures Collapsed(nx, ny)[(i - 1) * Trips(1, ny - 1) + (j - 1)] == (i, j)
  {
    var rows, m := Trips(1, nx - 1), Trips(1, ny - 1);
    DivModPair(i - 1, j - 1, m);
    MulMono(i - 1, rows - 1, m);
    assert (rows - 1) * m + m == rows * m;
  }

  /** The collapsed iteration space has (Nx-2)(Ny-2) iterations when Nx, Ny >= 2,
      none otherwise. */
  lemma CollapsedLength(nx: int, ny: int)
    ensures |Collapsed(nx, ny)| == Trips(1, nx - 1) * Trips(1, ny - 1)
  {
  }

  /** The order in which the threads happen to run one parallel loop's
      iterations: any rearrangement of the collapsed iteration space. */
  predicate Schedule(order: seq<(int, int)>, nx: int, ny: int)
  {
    multiset(order) == multiset(Collapsed(nx, ny))
  }

  /** A schedule lists every interior cell once, and only interior cells. */
  lemma ScheduleCovers(order: seq<(int, int)>, nx: int, ny: int)
    requires Schedule(order, nx, ny)
    ensures |order| == Trips(1, nx - 1) * Trips(1, ny - 1)
    ensures forall k | 0 <= k < |order| :: Interior(order[k].0, order[k].1, nx, ny)
    ensures forall i, j | Interior(i, j, nx, ny) :: (i, j) in order
  {
    var c := Collapsed(nx, ny);
    CollapsedLength(nx, ny);
    assert |order| == |multiset(order)| == |multiset(c)| == |c|;
    forall k | 0 <= k < |order| ensures Interior(order[k].0, order[k].1, nx, ny) {
      assert order[k] in multiset(c);
      var l :| 0 <= l < |c| && c[l] == order[k];
      CollapsedCell(nx, ny, l);
    }
    forall i, j | Interior(i, j, nx, ny) ensures (i, j) in order {
      CollapsedVisits(nx, ny, i, j);
      assert (i, j) in multiset(c);
    }
  }

  /** The parallel stencil loop run in the order `order`: whatever the schedule,
      `uNew` ends up exactly as after the serial sweep, because each iteration
      writes its own cell and reads only `u`. */
  method ParallelStencil(u: array2<real>, uNew: array2<real>, p: Params, order: seq<(int, int)>)
    returns (ghost writes: nat)
    requires u != uNew && u.Length0 == uNew.Length0 && u.Length1 == uNew.Length1 && ValidParams(p)
    requires Schedule(order, u.Length0, u.Length1)
    modifies uNew
    ensures forall i, j | Interior(i, j, u.Length0, u.Length1) :: uNew[i, j] == StepAt(old(Snapshot(u)), i, j, p)
    ensures forall i, j | 0 <= i < u.Length0 && 0 <= j < u.Length1 && !Interior(i, j, u.Length0, u.Length1) ::
              uNew[i, j] == old(uNew[i, j])
    ensures writes == Trips(1, u.Length0 - 1) * Trips(1, u.Length1 - 1)
  {
    var nx, ny := u.Length0, u.Length1;
    ghost var g := Snapshot(u);
    ScheduleCovers(order, nx, ny);
    var k := 0;
    while k < |order|
      invariant 0 <= k <= |order|
      invariant forall l | 0 <= l < k :: uNew[order[l].0, order[l].1] == StepAt(g, order[l].0, order[l].1, p)
      invariant forall a, b | 0 <= a < nx && 0 <= b < ny && !Interior(a, b, nx, ny) :: uNew[a, b] == old(uNew[a, b])
    {
      var (i, j) := order[k];
      assert Interior(i, j, nx, ny);
      uNew[i, j] := Stencil(u[i, j], u[i - 1, j], u[i + 1, j], u[i, j - 1], u[i, j + 1], p);
      assert uNew[i, j] == StepAt(g, i, j, p) by {
        StencilOfSnapshot(u, g, i, j, p);
      }
      k := k + 1;
    }
    forall i, j | Interior(i, j, nx, ny) ensures uNew[i, j] == StepAt(g, i, j, p) {
      var l :| 0 <= l < |order| && order[l] == (i, j);
    }
    writes := |order|;
  }

  /** The parallel copy-back run in the order `order`: `u`'s interior becomes
      `uNew`'s and its boundary is untouched, whatever the schedule. */
  method ParallelCopy(u: array2<real>, uNew: array2<real>, order: seq<(int, int)>)
    requires u != uNew && u.Length0 == uNew.Length0 && u.Length1 == uNew.Length1
    requires Schedule(order, u.Length0, u.Length1)
    modifies u
    ensures forall i, j | 0 <= i < u.Length0 && 0 <= j < u.Length1 ::
              u[i, j] == if Interior(i, j, u.Length0, u.Length1) then uNew[i, j] else old(u[i, j])
  {
    var nx, ny := u.Length0, u.Length1;
    ScheduleCovers(order, nx, ny);
    var k := 0;
    while k < |order|
      invariant 0 <= k <= |order|
      invariant forall a, b | 0 <= a < nx && 0 <= b < ny ::
                  u[a, b] == if Interior(a, b, nx, ny) && (a, b) in order[..k] then uNew[a, b] else old(u[a, b])
    {
      var (i, j) := order[k];
      u[i, j] := uNew[i, j];
      assert order[..k + 1] == order[..k] + [(i, j)];
      k := k + 1;
    }
    assert order[..k] == order;
  }

  /** One pass of the time loop's body: both parallel loops, each run in the order
      its threads happen to take. Afterwards `u` holds the field stepped once, and
      `uNew` shares `u`'s interior while keeping its own boundary. */
  method ParallelTimeStep(u: array2<real>, uNew: array2<real>, p: Params,
                          stencilOrder: seq<(int, int)>, copyOrder: seq<(int, int)>)
    returns (ghost writes: nat)
    requires u != uNew && u.Length0 == uNew.Length0 && u.Length1 == uNew.Length1 && ValidParams(p)
    requires Schedule(stencilOrder, u.Length0, u.Length1) && Schedule(copyOrder, u.Length0, u.Length1)
    modifies u, uNew
    ensures Snapshot(u) == Step(old(Snapshot(u)), p)
    ensures forall i, j | 0 <= i < u.Length0 && 0 <= j < u.Length1 ::
              uNew[i, j] == if Interior(i, j, u.Length0, u.Length1) then u[i, j] else old(uNew[i, j])
    ensures writes == Trips(1, u.Length0 - 1) * Trips(1, u.Length1 - 1)
  {
    ghost var before := Snapshot(u);
    writes := ParallelStencil(u, uNew, p, stencilOrder);
    ParallelCopy(u, uNew, copyOrder);
    SnapshotIs(u, Step(before, p));
  }

  /** The time loop, with schedules `stencilOrder(n)` and `copyOrder(n)` for step
      n: the field after it is the serial solver's, stepped max(Nt, 0) times, and
      the stencil writes Trips(0, Nt) * Trips(1, Nx-1) * Trips(1, Ny-1) cells. */
  method OmpTimeLoop(u: array2<real>, uNew: array2<real>, nt: int, p: Params,
                     stencilOrder: int -> seq<(int, int)>, copyOrder: int -> seq<(int, int)>)
    returns (ghost writes: nat)
    requires u != uNew && u.Length0 == uNew.Length0 && u.Length1 == uNew.Length1 && ValidParams(p)
    requires forall n :: Schedule(stencilOrder(n), u.Length0, u.Length1)
    requires forall n :: Schedule(copyOrder(n), u.Length0, u.Length1)
    modifies u, uNew
    ensures Snapshot(u) == Iterate(old(Snapshot(u)), p, Trips(0, nt))
    ensures forall i, j | 0 <= i < u.Length0 && 0 <= j < u.Length1 ::
              uNew[i, j] == if Interior(i, j, u.Length0, u.Length1) && nt > 0 then u[i, j] else old(uNew[i, j])
    ensures writes == Trips(0, nt) * (Trips(1, u.Length0 - 1) * Trips(1, u.Length1 - 1))
  {
    ghost var g0 := Snapshot(u);
    ghost var cells := Trips(1, u.Length0 - 1) * Trips(1, u.Length1 - 1);
    var n := 0;
    writes := 0;
    while n < nt
      invariant 0 <= n <= Trips(0, nt)
      invariant Snapshot(u) == Iterate(g0, p, n)
      invariant forall i, j | 0 <= i < u.Length0 && 0 <= j < u.Length1 ::
                  uNew[i, j] == if Interior(i, j, u.Length0, u.Length1) && n > 0 then u[i, j] else old(uNew[i, j])
      invariant writes == n * cells
    {
      var w := ParallelTimeStep(u, uNew, p, stencilOrder(n), copyOrder(n));
      SerialHeat.MulSucc(n, cells);
      writes := writes + w;
      n := n + 1;
    }
    assert n == Trips(0, nt);
  }

  /** The update count the report's throughput is computed from. */
  function PrintedUpdates(s: Size): int
  {
    s.nt * (s.nx - 2) * (s.ny - 2)
  }

  /** The interior writes the loops actually perform. */
  function PerformedUpdates(s: Size): nat
  {
    Trips(0, s.nt) * (Trips(1, s.nx - 1) * Trips(1, s.ny - 1))
  }

  /** The printed count is the true one when Nt >= 0 and Nx, Ny >= 2. */
  lemma PrintedCountIsExact(s: Size)
    requires s.nt >= 0 && s.nx >= 2 && s.ny >= 2
    ensures PrintedUpdates(s) == PerformedUpdates(s)
  {
    assert Trips(1, s.nx - 1) == s.nx - 2 && Trips(1, s.ny - 1) == s.ny - 2;
  }

  /** No cell is updated exactly when Nx <= 2, Ny <= 2 or Nt <= 0. */
  lemma NothingUpdated(s: Size)
    ensures PerformedUpdates(s) == 0 <==> s.nx <= 2 || s.ny <= 2 || s.nt <= 0
  {
    var a, b, c := Trips(0, s.nt), Trips(1, s.nx - 1), Trips(1, s.ny - 1);
    if a > 0 && b > 0 && c > 0 {
      SerialHeat.MulSucc(b - 1, c);
      MulMono(1, b, c);
      MulMono(1, a, b * c);
    }
  }

  /** With a 1 x 1 grid and one step the printed count is 1 while no cell is
      updated: outside Nx, Ny >= 2 the printed count can be wrong. */
  lemma PrintedCountOffForTinyGrid()
    ensures PrintedUpdates(Size(1, 1, 1)) == 1 && PerformedUpdates(Size(1, 1, 1)) == 0
  {
  }

  /** The centre read `u[Nx/2][Ny/2]` (C division) falls inside an Nx-by-Ny field. */
  predicate CenterInBounds(nx: int, ny: int)
  {
    0 <= CDiv(nx, 2) < nx && 0 <= CDiv(ny, 2) < ny
  }

  /** The centre is in bounds exactly when Nx >= 1 and Ny >= 1; nothing checks
      the values `atoi` returned, so a zero or negative size reads outside. */
  lemma CenterInBoundsIff(nx: int, ny: int)
    ensures CenterInBounds(nx, ny) <==> nx >= 1 && ny >= 1
  {
  }

  /** The seven report lines. */
  function OmpReport(s: Size, elapsed: string, mlups: string, center: string): seq<string>
  {
    ["Implementation: " + "OpenMP",
     "Threads: " + IntToString(Threads),
     "GridSize: " + (IntToString(s.nx) + "x" + IntToString(s.ny)),
     "TimeSteps: " + IntToString(s.nt),
     "Time: " + elapsed,
     "Throughput: " + mlups,
     "CenterValue: " + center]
  }

  /** The message printed when the CSV file cannot be created. */
  const OpenError: string := "Error: Could not create output file"

  /** One CSV line's fields: the formatted values of a row, in order. */
  function Fields(row: seq<real>, format: real -> string): (fs: seq<string>)
    ensures |fs| == |row| && forall j | 0 <= j < |row| :: fs[j] == format(row[j])
  {
    seq(|row|, j requires 0 <= j < |row| => format(row[j]))
  }

  /** The CSV dump of a field: one line per row, its values joined by commas. */
  function CsvText(g: Grid, format: real -> string): string
  {
    Emit(seq(|g|, i requires 0 <= i < |g| => Join(Fields(g[i], format), ',')))
  }

  /** A number's text never holds a comma or a newline. */
  ghost predicate PlainNumbers(format: real -> string)
  {
    forall x :: ',' !in format(x) && '\n' !in format(x)
  }

  lemma FieldsPlain(row: seq<real>, format: real -> string)
    requires PlainNumbers(format)
    ensures forall k | 0 <= k < |row| :: ',' !in Fields(row, format)[k] && '\n' !in Fields(row, format)[k]
  {
    forall k | 0 <= k < |row| ensures ',' !in Fields(row, format)[k] && '\n' !in Fields(row, format)[k] {
      var v := row[k];
      assert ',' !in format(v) && '\n' !in format(v);
    }
  }

  /** The CSV reads back: it has exactly one line per row (the final newline
      leaves an empty tail), line i splits at commas into row i's values in order,
      and it holds Ny - 1 commas, none trailing. */
  lemma CsvReadsBack(g: Grid, format: real -> string)
    requires Rect(g) && Width(g) >= 1 && PlainNumbers(format)
    ensures var lines := Split(CsvText(g, format), '\n');
            |lines| == |g| + 1 && lines[|g|] == "" &&
            forall i | 0 <= i < |g| ::
              Split(lines[i], ',') == Fields(g[i], format) && Count(lines[i], ',') == Width(g) - 1
  {
    var rows := seq(|g|, i requires 0 <= i < |g| => Join(Fields(g[i], format), ','));
    forall i | 0 <= i < |g| ensures '\n' !in rows[i] {
      FieldsPlain(g[i], format);
      JoinAvoids(Fields(g[i], format), ',', '\n');
    }
    SplitEmit(rows, "");
    assert Emit(rows) + "" == Emit(rows);
    forall i | 0 <= i < |g|
      ensures Split(rows[i], ',') == Fields(g[i], format) && Count(rows[i], ',') == Width(g) - 1
    {
      var fs := Fields(g[i], format);
      FieldsPlain(g[i], format);
      SplitJoin(fs, ',');
      JoinCount(fs, ',');
    }
  }

  /** The CSV writer: row by row, each value followed by a comma unless it is
      the last of its row, each row followed by a newline. */
  method WriteCsv(u: array2<real>, format: real -> string) returns (text: string)
    ensures text == CsvText(Snapshot(u), format)
  {
    ghost var g := Snapshot(u);
    ghost var rows := seq(|g|, i requires 0 <= i < |g| => Join(Fields(g[i], format), ','));
    text := "";
    var i := 0;
    while i < u.Length0
      invariant 0 <= i <= u.Length0
      invariant text == Emit(rows[..i])
    {
      ghost var fs := Fields(g[i], format);
      var line := "";
      var j := 0;
      while j < u.Length1
        invariant 0 <= j <= u.Length1
        invariant line == Join(fs[..j], ',') + (if 0 < j < u.Length1 then "," else "")
      {
        var x := format(u[i, j]);
        assert x == fs[j];
        JoinStep(fs, j, ',');
        line := line + x;
        if j < u.Length1 - 1 {
          line := line + ",";
        }
        j := j + 1;
      }
      assert fs[..j] == fs;
      EmitAppend(rows[..i], line);
      assert rows[..i + 1] == rows[..i] + [rows[i]];
      text := text + line + "\n";
      i := i + 1;
    }
    assert rows[..i] == rows;
  }

  /** How a run ends: an exit code, the lines written to stdout and the CSV text
      (none when the file could not be created); or undefined behaviour, when
      the centre read falls outside the field. */
  datatype Outcome = Finished(code: int, stdout: seq<string>, csv: Option<string>) | Undefined

  /** The field the run leaves in `u`: the initial condition on max(Nx,0) x
      max(Ny,0) cells, stepped max(Nt,0) times when the grid has two points
      along each axis (otherwise the loops are empty). */
  function FinalField(ic: (int, int) -> real, s: Size): (g: Grid)
    ensures Rect(g) && |g| == Trips(0, s.nx) && (s.nx > 0 ==> Width(g) == Trips(0, s.ny))
  {
    var g0 := InitGrid(ic, Trips(0, s.nx), Trips(0, s.ny));
    DerivedIsStable(s.nx, s.ny);
    match Derive(s.nx, s.ny)
    case None => g0
    case Some(p) => Iterate(g0, p, Trips(0, s.nt))
  }

  /** Allocation, the initial-condition loop and the time loop: the field left
      in `u` is `FinalField`, and the stencil loop wrote `PerformedUpdates` cells. */
  method Solve(s: Size, ic: (int, int) -> real,
               stencilOrder: int -> seq<(int, int)>, copyOrder: int -> seq<(int, int)>)
    returns (u: array2<real>, ghost writes: nat)
    requires forall n :: Schedule(stencilOrder(n), Trips(0, s.nx), Trips(0, s.ny))
    requires forall n :: Schedule(copyOrder(n), Trips(0, s.nx), Trips(0, s.ny))
    ensures fresh(u) && u.Length0 == Trips(0, s.nx) && u.Length1 == Trips(0, s.ny)
    ensures Snapshot(u) == FinalField(ic, s)
    ensures writes == PerformedUpdates(s)
  {
    var rows, cols := Trips(0, s.nx), Trips(0, s.ny);
    u := new real[rows, cols];
    var uNew := new real[rows, cols];
    SerialHeat.InitField(u, ic);
    DerivedIsStable(s.nx, s.ny);
    var params := Derive(s.nx, s.ny);
    if params.Some? {
      writes := OmpTimeLoop(u, uNew, s.nt, params.value, stencilOrder, copyOrder);
      assert rows == s.nx && cols == s.ny;
    } else {
      writes := 0;
      assert Trips(1, s.nx - 1) == 0 || Trips(1, s.ny - 1) == 0;
    }
  }

  /** The OpenMP program. `fileOpens` says whether `fopen` succeeds; `elapsed`
      and `mlups` are the formatted timing figures; `fixed` and `sci` are the
      `%f` and `%.10e` formats; the schedules give each parallel loop's order.
      `writes` counts the stencil assignments the run performs; the file is
      opened after the time loop, so they happen on every path. */
  method OmpMain(argv: seq<string>, atoi: string -> int, ic: (int, int) -> real, fileOpens: bool,
                 elapsed: string, mlups: string, fixed: real -> string, sci: real -> string,
                 stencilOrder: int -> seq<(int, int)>, copyOrder: int -> seq<(int, int)>)
    returns (r: Outcome, ghost writes: nat)
    requires var s := SelectSize(argv, atoi);
             (forall n :: Schedule(stencilOrder(n), Trips(0, s.nx), Trips(0, s.ny))) &&
             (forall n :: Schedule(copyOrder(n), Trips(0, s.nx), Trips(0, s.ny)))
    ensures !fileOpens ==> r == Finished(1, [OpenError], None)
    ensures var s := SelectSize(argv, atoi);
            fileOpens && !CenterInBounds(s.nx, s.ny) ==> r == Undefined
    ensures var s := SelectSize(argv, atoi);
            var g := FinalField(ic, s);
            fileOpens && CenterInBounds(s.nx, s.ny) ==>
              r == Finished(0, OmpReport(s, elapsed, mlups, fixed(g[CDiv(s.nx, 2)][CDiv(s.ny, 2)])),
                            Some(CsvText(g, sci)))
    ensures writes == PerformedUpdates(SelectSize(argv, atoi))
  {
    var s := SelectSize(argv, atoi);
    var u;
    u, writes := Solve(s, ic, stencilOrder, copyOrder);
    if !fileOpens {
      return Finished(1, [OpenError], None), writes;
    }
    var ci, cj := CDiv(s.nx, 2), CDiv(s.ny, 2);
    if !(0 <= ci < u.Length0 && 0 <= cj < u.Length1) {
      return Undefined, writes;
    }
    var lines := OmpReport(s, elapsed, mlups, fixed(u[ci, cj]));
    var csv := WriteCsv(u, sci);
    r := Finished(0, lines, Some(csv));
  }
}
