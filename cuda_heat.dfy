/** The CUDA solver: flat device buffers indexed by `IDX`, a kernel launched on a
    grid of 16 x 16 blocks with one thread per interior cell, and a host loop that
    swaps the two device pointers after every launch. A device word is either a
    known value or a word whose value is unspecified, because the program never
    wrote it or computed it from such a word. */
module CudaHeat {
  import opened Heat
  import SerialHeat

  /** One double of device memory: a known value, or `Garbage`, a word whose value
      is unspecified because it was never written or was computed from such a word. */
  datatype Word = Garbage | Val(v: real)

  /** `IDX(i,j,N)`: the row-major position of cell (i, j) when rows hold N cells. */
  function Idx(i: int, j: int, n: int): int
  {
    i * n + j
  }

  lemma IdxInRange(nx: int, ny: int, i: int, j: int)
    requires 0 <= i < nx && 0 <= j < ny
    ensures 0 <= Idx(i, j, ny) < nx * ny
  {
    MulMono(i, nx - 1, ny);
    MulMono(0, i, ny);
    assert (nx - 1) * ny + ny == nx * ny;
  }

  lemma IdxInverse(ny: int, i: int, j: int)
    requires 0 <= j < ny
    ensures Idx(i, j, ny) / ny == i && Idx(i, j, ny) % ny == j
  {
    DivModPair(i, j, ny);
  }

  lemma IdxOnto(nx: int, ny: int, k: int)
    requires ny > 0 && 0 <= k < nx * ny
    ensures 0 <= k / ny < nx && 0 <= k % ny < ny && Idx(k / ny, k % ny, ny) == k
  {
    DivBelow(k, nx, ny);
  }

  lemma IdxInjective(ny: int, i: int, j: int, i': int, j': int)
    requires 0 <= j < ny && 0 <= j' < ny && Idx(i, j, ny) == Idx(i', j', ny)
    ensures i == i' && j == j'
  {
    IdxInverse(ny, i, j);
    IdxInverse(ny, i', j');
  }

  /** `IDX` maps the cells of an nx-by-ny grid one-to-one onto the positions
      0 .. nx*ny-1 of a flat buffer. */
  lemma IdxBijective(nx: int, ny: int)
    requires nx >= 1 && ny >= 1
    ensures forall i, j | 0 <= i < nx && 0 <= j < ny :: 0 <= Idx(i, j, ny) < nx * ny
    ensures forall i, j, i', j' | 0 <= i < nx && 0 <= j < ny && 0 <= i' < nx && 0 <= j' < ny &&
              Idx(i, j, ny) == Idx(i', j', ny) :: i == i' && j == j'
    ensures forall k | 0 <= k < nx * ny :: 0 <= k / ny < nx && 0 <= k % ny < ny && Idx(k / ny, k % ny, ny) == k
  {
    forall i, j | 0 <= i < nx && 0 <= j < ny ensures 0 <= Idx(i, j, ny) < nx * ny {
      IdxInRange(nx, ny, i, j);
    }
    forall i, j, i', j' | 0 <= i < nx && 0 <= j < ny && 0 <= i' < nx && 0 <= j' < ny &&
        Idx(i, j, ny) == Idx(i', j', ny)
      ensures i == i' && j == j'
    {
      IdxInjective(ny, i, j, i', j');
    }
    forall k | 0 <= k < nx * ny ensures 0 <= k / ny < nx && 0 <= k % ny < ny && Idx(k / ny, k % ny, ny) == k {
      IdxOnto(nx, ny, k);
    }
  }

  /** The device buffers' fixed shape: the CUDA solver hard-codes 200 x 200
      points (and 1000 steps); every buffer below holds `Nx * Ny` words. */
  const Nx: int := 200
  const Ny: int := 200
  const Nt: int := 1000

  /** `dim3 block(16, 16)`. */
  const Block: int := 16

  /** The launch grid's extent along an axis of n points: `(n - 2 + 15) / 16`. */
  function GridDim(n: int): int
  {
    CDiv(n - 2 + Block - 1, Block)
  }

  /** The cell index thread `t` of block `b` computes along one axis. */
  function ThreadCell(b: int, t: int): int
  {
    b * Block + t + 1
  }

  /** The launch covers every interior index: index i is computed by thread
      (i-1) % 16 of block (i-1) / 16, a block inside the grid. */
  lemma LaunchCovers(n: int, i: int)
    requires 1 <= i < n - 1
    ensures 0 <= (i - 1) / Block < GridDim(n) && 0 <= (i - 1) % Block < Block
    ensures ThreadCell((i - 1) / Block, (i - 1) % Block) == i
  {
  }

  /** No two threads compute the same index along an axis. */
  lemma ThreadUnique(b: int, t: int, b': int, t': int)
    requires 0 <= t < Block && 0 <= t' < Block && ThreadCell(b, t) == ThreadCell(b', t')
    ensures b == b' && t == t'
  {
    DivModPair(b, t, Block);
    DivModPair(b', t', Block);
  }

  /** Distinct threads of one launch that pass the guard write distinct words
      of `uNew`: the thread of blocks (bi, bj) and threads (ti, tj) writes
      `IDX(i, j, Ny)` for i = bi*16+ti+1 and j = bj*16+tj+1. */
  lemma ThreadsWriteDistinctWords(bi: int, ti: int, bj: int, tj: int, bi': int, ti': int, bj': int, tj': int)
    requires 0 <= ti < Block && 0 <= tj < Block && 0 <= ti' < Block && 0 <= tj' < Block
    requires Interior(ThreadCell(bi, ti), ThreadCell(bj, tj), Nx, Ny)
    requires Interior(ThreadCell(bi', ti'), ThreadCell(bj', tj'), Nx, Ny)
    requires (bi, ti, bj, tj) != (bi', ti', bj', tj')
    ensures Idx(ThreadCell(bi, ti), ThreadCell(bj, tj), Ny) != Idx(ThreadCell(bi', ti'), ThreadCell(bj', tj'), Ny)
  {
    if Idx(ThreadCell(bi, ti), ThreadCell(bj, tj), Ny) == Idx(ThreadCell(bi', ti'), ThreadCell(bj', tj'), Ny) {
      IdxInjective(Ny, ThreadCell(bi, ti), ThreadCell(bj, tj), ThreadCell(bi', ti'), ThreadCell(bj', tj'));
      ThreadUnique(bi, ti, bi', ti');
      ThreadUnique(bj, tj, bj', tj');
    }
  }

  /** The grid launches at least n - 2 threads along an axis of n >= 0 points. */
  lemma GridCovers(n: int)
    requires n >= 0
    ensures GridDim(n) >= 0 && GridDim(n) * Block >= n - 2
  {
  }

  /** One thread's update from the five words it reads: a value when all five
      are values, otherwise unspecified. */
  function Combine(c: Word, up: Word, down: Word, left: Word, right: Word, p: Params): Word
    requires ValidParams(p)
  {
    if c.Val? && up.Val? && down.Val? && left.Val? && right.Val?
    then Val(Stencil(c.v, up.v, down.v, left.v, right.v, p))
    else Garbage
  }

  /** The word the kernel's thread for interior cell (i, j) stores. */
  function CellUpdate(u: seq<Word>, i: int, j: int, p: Params): Word
    requires |u| == Nx * Ny && Interior(i, j, Nx, Ny) && ValidParams(p)
  {
    IdxInRange(Nx, Ny, i, j);
    IdxInRange(Nx, Ny, i - 1, j);
    IdxInRange(Nx, Ny, i + 1, j);
    IdxInRange(Nx, Ny, i, j - 1);
    IdxInRange(Nx, Ny, i, j + 1);
    Combine(u[Idx(i, j, Ny)], u[Idx(i - 1, j, Ny)], u[Idx(i + 1, j, Ny)], u[Idx(i, j - 1, Ny)], u[Idx(i, j + 1, Ny)], p)
  }

  /** The buffer `uNew` holds after one launch of the kernel on `u` and `w`. */
  function KernelOut(u: seq<Word>, w: seq<Word>, p: Params): (r: seq<Word>)
    requires |u| == Nx * Ny && |w| == Nx * Ny && ValidParams(p)
    ensures |r| == Nx * Ny
  {
    seq(Nx * Ny, k requires 0 <= k < Nx * Ny =>
      IdxOnto(Nx, Ny, k);
      if Interior(k / Ny, k % Ny, Nx, Ny) then CellUpdate(u, k / Ny, k % Ny, p) else w[k])
  }

  /** A launch writes exactly the interior cells of `uNew`, each from `u` at the
      cell and its four neighbours; every other word of `uNew` is left as it was. */
  lemma KernelAt(u: seq<Word>, w: seq<Word>, p: Params, i: int, j: int)
    requires |u| == Nx * Ny && |w| == Nx * Ny && ValidParams(p)
    requires 0 <= i < Nx && 0 <= j < Ny
    ensures 0 <= Idx(i, j, Ny) < Nx * Ny
    ensures KernelOut(u, w, p)[Idx(i, j, Ny)] ==
              if Interior(i, j, Nx, Ny) then CellUpdate(u, i, j, p) else w[Idx(i, j, Ny)]
  {
    IdxInRange(Nx, Ny, i, j);
    IdxInverse(Ny, i, j);
  }

  /** Two buffers that agree at every cell are equal. */
  lemma BuffersEqual(x: seq<Word>, y: seq<Word>)
    requires |x| == Nx * Ny && |y| == Nx * Ny
    requires forall i, j | 0 <= i < Nx && 0 <= j < Ny :: x[Idx(i, j, Ny)] == y[Idx(i, j, Ny)]
    ensures x == y
  {
    forall k | 0 <= k < Nx * Ny ensures x[k] == y[k] {
      IdxOnto(Nx, Ny, k);
    }
  }

  /** Of the first `g` threads along an axis of n points, how many pass the guard
      `index < n - 1`. */
  function Passed(g: int, n: int): nat
  {
    if g < 0 then 0 else if g < Trips(1, n - 1) then g else Trips(1, n - 1)
  }

  /** The body of `update_kernel` for the thread at global position (gi, gj)
      (block index times 16 plus thread index): it handles cell (gi+1, gj+1)
      when that cell passes the guard `i < Nx-1 && j < Ny-1`, writing that word
      of `uNew` alone, from `u` at the cell and its four neighbours. */
  method KernelThread(u: array<Word>, uNew: array<Word>, gi: int, gj: int, p: Params)
    requires u != uNew && u.Length == Nx * Ny && uNew.Length == Nx * Ny && ValidParams(p)
    requires 0 <= gi && 0 <= gj
    modifies uNew
    ensures forall a, b | 0 <= a < Nx && 0 <= b < Ny ::
              uNew[Idx(a, b, Ny)] == if a == gi + 1 && b == gj + 1 && Interior(a, b, Nx, Ny)
                                     then CellUpdate(u[..], a, b, p) else old(uNew[Idx(a, b, Ny)])
  {
    var i, j := gi + 1, gj + 1;
    if i < Nx - 1 && j < Ny - 1 {
      var k := Idx(i, j, Ny);
      uNew[k] := Combine(u[k], u[Idx(i - 1, j, Ny)], u[Idx(i + 1, j, Ny)], u[Idx(i, j - 1, Ny)], u[Idx(i, j + 1, Ny)], p);
    }
  }

  /** One launch of `update_kernel` on the 16 x 16-block grid, its threads taken
      one after another (they write distinct words and read only `u`). */
  method UpdateKernel(u: array<Word>, uNew: array<Word>, p: Params) returns (ghost writes: nat)
    requires u != uNew && u.Length == Nx * Ny && uNew.Length == Nx * Ny && ValidParams(p)
    modifies uNew
    ensures uNew[..] == KernelOut(u[..], old(uNew[..]), p)
    ensures writes == Trips(1, Nx - 1) * Trips(1, Ny - 1)
  {
    ghost var U, W := u[..], uNew[..];
    GridCovers(Nx);
    GridCovers(Ny);
    var threadsX, threadsY := GridDim(Nx) * Block, GridDim(Ny) * Block;
    writes := 0;
    var gi := 0;
    while gi < threadsX
      invariant 0 <= gi <= threadsX
      invariant forall a, b | 0 <= a < Nx && 0 <= b < Ny ::
                  uNew[Idx(a, b, Ny)] == if Interior(a, b, Nx, Ny) && a <= gi
                                         then CellUpdate(U, a, b, p) else W[Idx(a, b, Ny)]
      invariant writes == Passed(gi, Nx) * Trips(1, Ny - 1)
    {
      var gj := 0;
      while gj < threadsY
        invariant 0 <= gj <= threadsY
        invariant forall a, b | 0 <= a < Nx && 0 <= b < Ny ::
                    uNew[Idx(a, b, Ny)] == if Interior(a, b, Nx, Ny) && (a <= gi || (a == gi + 1 && b <= gj))
                                           then CellUpdate(U, a, b, p) else W[Idx(a, b, Ny)]
        invariant writes == Passed(gi, Nx) * Trips(1, Ny - 1) + (if gi + 1 < Nx - 1 then Passed(gj, Ny) else 0)
      {
        KernelThread(u, uNew, gi, gj, p);
        if gi + 1 < Nx - 1 && gj + 1 < Ny - 1 {
          writes := writes + 1;
        }
        gj := gj + 1;
      }
      gi := gi + 1;
    }
    forall i, j | 0 <= i < Nx && 0 <= j < Ny
      ensures uNew[Idx(i, j, Ny)] == KernelOut(U, W, p)[Idx(i, j, Ny)]
    {
      KernelAt(U, W, p, i, j);
    }
    BuffersEqual(uNew[..], KernelOut(U, W, p));
  }

  /** The pair (d_u, d_uNew) after n launches, each followed by the pointer swap. */
  function DeviceRun(a: seq<Word>, b: seq<Word>, p: Params, n: nat): (r: (seq<Word>, seq<Word>))
    requires |a| == Nx * Ny && |b| == Nx * Ny && ValidParams(p)
    ensures |r.0| == Nx * Ny && |r.1| == Nx * Ny
  {
    if n == 0 then (a, b)
    else
      var prev := DeviceRun(a, b, p, n - 1);
      (KernelOut(prev.0, prev.1, p), prev.0)
  }

  /** The host time loop: launch on (d_u, d_uNew), then swap the pointers. After
      it, d_u names the buffer it started as exactly when the number of steps is
      even, the two buffers hold `DeviceRun`'s pair, and the kernels wrote
      Trips(Nt) * (Nx-2)(Ny-2) words in all. */
  method DeviceTimeLoop(a: array<Word>, b: array<Word>, nt: int, p: Params)
    returns (du: array<Word>, dn: array<Word>, ghost writes: nat)
    requires a != b && a.Length == Nx * Ny && b.Length == Nx * Ny && ValidParams(p)
    modifies a, b
    ensures (du == a && dn == b) || (du == b && dn == a)
    ensures du == a <==> Trips(0, nt) % 2 == 0
    ensures (du[..], dn[..]) == DeviceRun(old(a[..]), old(b[..]), p, Trips(0, nt))
    ensures writes == Trips(0, nt) * (Trips(1, Nx - 1) * Trips(1, Ny - 1))
  {
    ghost var A, B := a[..], b[..];
    du, dn := a, b;
    writes := 0;
    var n := 0;
    while n < nt
      invariant 0 <= n <= Trips(0, nt)
      invariant (du == a && dn == b) || (du == b && dn == a)
      invariant du == a <==> n % 2 == 0
      invariant (du[..], dn[..]) == DeviceRun(A, B, p, n)
      invariant writes == n * (Trips(1, Nx - 1) * Trips(1, Ny - 1))
    {
      var w := UpdateKernel(du, dn, p);
      du, dn := dn, du;
      SerialHeat.MulSucc(n, Trips(1, Nx - 1) * Trips(1, Ny - 1));
      writes := writes + w;
      n := n + 1;
    }
  }

  /** A field laid out in a device buffer, every word a value. */
  function Device(g: Grid): (d: seq<Word>)
    requires Rect(g) && |g| == Nx && Width(g) == Ny
    ensures |d| == Nx * Ny
  {
    seq(Nx * Ny, k requires 0 <= k < Nx * Ny => IdxOnto(Nx, Ny, k); Val(g[k / Ny][k % Ny]))
  }

  lemma DeviceAt(g: Grid, i: int, j: int)
    requires Rect(g) && |g| == Nx && Width(g) == Ny
    requires 0 <= i < Nx && 0 <= j < Ny
    ensures 0 <= Idx(i, j, Ny) < Nx * Ny && Device(g)[Idx(i, j, Ny)] == Val(g[i][j])
  {
    IdxInRange(Nx, Ny, i, j);
    IdxInverse(Ny, i, j);
  }

  /** A freshly `cudaMalloc`ed buffer: nothing in it was written by the program. */
  function Uninitialised(): (d: seq<Word>)
    ensures |d| == Nx * Ny && forall k | 0 <= k < |d| :: d[k] == Garbage
  {
    seq(Nx * Ny, k => Garbage)
  }

  /** A launch on the laid-out field G, with a second buffer that shares G's
      boundary, leaves the laid-out step of G. */
  lemma KernelOnDevice(g: Grid, h: Grid, p: Params)
    requires ValidParams(p) && |g| == Nx && Width(g) == Ny && SameBoundary(g, h)
    ensures KernelOut(Device(g), Device(h), p) == Device(Step(g, p))
  {
    var u, w, s := Device(g), Device(h), Step(g, p);
    var r := KernelOut(u, w, p);
    forall i, j | 0 <= i < Nx && 0 <= j < Ny ensures r[Idx(i, j, Ny)] == Device(s)[Idx(i, j, Ny)] {
      KernelAt(u, w, p, i, j);
      DeviceAt(s, i, j);
      DeviceAt(h, i, j);
      if Interior(i, j, Nx, Ny) {
        DeviceAt(g, i, j);
        DeviceAt(g, i - 1, j);
        DeviceAt(g, i + 1, j);
        DeviceAt(g, i, j - 1);
        DeviceAt(g, i, j + 1);
      }
    }
    BuffersEqual(r, Device(s));
  }

  /** With both device buffers filled from the host, the device run is the serial
      solution laid out: d_u holds the field stepped n times and d_uNew the field
      one step earlier. */
  lemma {:induction false} CorrectedMatchesSerial(g: Grid, p: Params, n: nat)
    requires ValidParams(p) && Rect(g) && |g| == Nx && Width(g) == Ny
    ensures DeviceRun(Device(g), Device(g), p, n).0 == Device(Iterate(g, p, n))
    ensures DeviceRun(Device(g), Device(g), p, n).1
              == Device(Iterate(g, p, if n == 0 then 0 else n - 1))
  {
    if n > 0 {
      CorrectedMatchesSerial(g, p, n - 1);
      var cur, prev := Iterate(g, p, n - 1), Iterate(g, p, if n - 1 == 0 then 0 else n - 2);
      IterateBoundariesAgree(g, p, n - 1, if n - 1 == 0 then 0 else n - 2);
      KernelOnDevice(cur, prev, p);
      assert Iterate(g, p, n) == Step(cur, p);
    }
  }

  /** How far cell (i, j) lies from the nearest edge of the grid. */
  function Dist(i: int, j: int): int
  {
    var a := if i < j then i else j;
    var b := if Nx - 1 - i < Ny - 1 - j then Nx - 1 - i else Ny - 1 - j;
    if a < b then a else b
  }

  /** The neighbour of an interior cell one step closer to the nearest edge. */
  function TowardEdge(i: int, j: int): (r: (int, int))
    requires Interior(i, j, Nx, Ny)
    ensures r == (i - 1, j) || r == (i + 1, j) || r == (i, j - 1) || r == (i, j + 1)
    ensures 0 <= r.0 < Nx && 0 <= r.1 < Ny && Dist(r.0, r.1) == Dist(i, j) - 1
  {
    var d := Dist(i, j);
    if d == i then (i - 1, j) else if d == j then (i, j - 1)
    else if d == Nx - 1 - i then (i + 1, j) else (i, j + 1)
  }

  /** A thread that reads an unspecified word stores an unspecified word. */
  lemma GarbageIn(u: seq<Word>, i: int, j: int, p: Params, a: int, b: int)
    requires |u| == Nx * Ny && Interior(i, j, Nx, Ny) && ValidParams(p)
    requires (a, b) in {(i, j), (i - 1, j), (i + 1, j), (i, j - 1), (i, j + 1)}
    requires u[Idx(a, b, Ny)] == Garbage
    ensures CellUpdate(u, i, j, p) == Garbage
  {
  }

  /** As the source is written (only d_u filled, d_uNew's boundary never set),
      from step 2 on every interior cell within n - 1 of the edge holds a word
      computed from uninitialised memory: the first launch copies d_uNew's
      unset boundary into the buffer the second launch reads. */
  lemma {:induction false} GarbageSpreads(g: Grid, p: Params, n: nat, i: int, j: int)
    requires ValidParams(p) && Rect(g) && |g| == Nx && Width(g) == Ny
    requires n >= 2 && Interior(i, j, Nx, Ny) && Dist(i, j) <= n - 1
    ensures DeviceRun(Device(g), Uninitialised(), p, n).0[Idx(i, j, Ny)] == Garbage
  {
    var a, b := Device(g), Uninitialised();
    var prev := DeviceRun(a, b, p, n - 1);
    var (ni, nj) := TowardEdge(i, j);
    var (x, y) := if n > 2 && Dist(i, j) <= n - 2 then (i, j) else (ni, nj);
    assert prev.0[Idx(x, y, Ny)] == Garbage by {
      if n == 2 {
        assert DeviceRun(a, b, p, 0) == (a, b);
        assert prev.0 == KernelOut(a, b, p);
        KernelAt(a, b, p, ni, nj);
      } else if Dist(i, j) <= n - 2 {
        GarbageSpreads(g, p, n - 1, i, j);
      } else {
        GarbageSpreads(g, p, n - 1, ni, nj);
      }
    }
    GarbageIn(prev.0, i, j, p, x, y);
    KernelAt(prev.0, prev.1, p, i, j);
    assert DeviceRun(a, b, p, n).0 == KernelOut(prev.0, prev.1, p);
  }

  /** The consequence for the fixed 200 x 200, 1000-step run as written: the
      centre value it prints was computed from uninitialised device memory. */
  lemma AsWrittenCenterIsGarbage(ic: (int, int) -> real)
    ensures Derive(Nx, Ny).Some? && ValidParams(Derive(Nx, Ny).value)
    ensures DeviceRun(Device(InitGrid(ic, Nx, Ny)), Uninitialised(), Derive(Nx, Ny).value, Nt).0[Idx(100, 100, Ny)]
              == Garbage
  {
    DeriveValid(Nx, Ny);
    GarbageSpreads(InitGrid(ic, Nx, Ny), Derive(Nx, Ny).value, Nt, 100, 100);
  }

  /** The parameters derived for a grid with two points per axis are valid. */
  lemma DeriveValid(nx: int, ny: int)
    requires nx >= 2 && ny >= 2
    ensures Derive(nx, ny).Some? && ValidParams(Derive(nx, ny).value)
  {
    DerivedIsStable(nx, ny);
  }

  /** The host's initial-condition loop over the flat array `u`. */
  method HostInit(u: array<real>, ic: (int, int) -> real)
    requires u.Length == Nx * Ny
    modifies u
    ensures forall i, j | 0 <= i < Nx && 0 <= j < Ny :: u[Idx(i, j, Ny)] == ic(i, j)
  {
    var i := 0;
    while i < Nx
      invariant 0 <= i <= Nx
      invariant forall a, b | 0 <= a < i && 0 <= b < Ny :: u[Idx(a, b, Ny)] == ic(a, b)
    {
      var j := 0;
      while j < Ny
        invariant 0 <= j <= Ny
        invariant forall a, b | 0 <= a < Nx && 0 <= b < Ny && (a < i || (a == i && b < j)) :: u[Idx(a, b, Ny)] == ic(a, b)
      {
        IdxInRange(Nx, Ny, i, j);
        u[Idx(i, j, Ny)] := ic(i, j);
        forall a, b | 0 <= a < Nx && 0 <= b < Ny && Idx(a, b, Ny) == Idx(i, j, Ny) ensures a == i && b == j {
          IdxInjective(Ny, a, b, i, j);
        }
        j := j + 1;
      }
      i := i + 1;
    }
  }

  /** Host initialisation, device allocation and the one host-to-device copy the
      source makes: d_u holds the initial field, and d_uNew holds only what
      `cudaMalloc` left there. */
  method AsWrittenSetup(ic: (int, int) -> real) returns (a: array<Word>, b: array<Word>)
    ensures fresh(a) && fresh(b) && a != b && a.Length == Nx * Ny && b.Length == Nx * Ny
    ensures a[..] == Device(InitGrid(ic, Nx, Ny)) && b[..] == Uninitialised()
  {
    var host := new real[Nx * Ny];
    HostInit(host, ic);
    a := new Word[Nx * Ny](k => Garbage);
    b := new Word[Nx * Ny](k => Garbage);
    CopyToDevice(a, host);
    HostToDevice(host[..], a[..], ic);
  }

  /** The CUDA program's device work as written: after the setup above and the
      1000 launches with their pointer swaps, the centre word that is copied back
      and printed was computed from uninitialised memory. */
  method AsWrittenRun(ic: (int, int) -> real) returns (center: Word)
    ensures center == Garbage
  {
    DeriveValid(Nx, Ny);
    var p := Derive(Nx, Ny).value;
    var a, b := AsWrittenSetup(ic);
    var du, dn;
    ghost var writes;
    du, dn, writes := DeviceTimeLoop(a, b, Nt, p);
    assert Trips(0, Nt) == Nt;
    AsWrittenCenterIsGarbage(ic);
    assert CDiv(Nx, 2) == 100 && CDiv(Ny, 2) == 100;
    center := du[Idx(CDiv(Nx, 2), CDiv(Ny, 2), Ny)];
  }

  /** `cudaMemcpy` from the host array into a device buffer. */
  method CopyToDevice(d: array<Word>, h: array<real>)
    requires d.Length == h.Length
    modifies d
    ensures forall k | 0 <= k < d.Length :: d[k] == Val(h[k])
  {
    var k := 0;
    while k < d.Length
      invariant 0 <= k <= d.Length
      invariant forall m | 0 <= m < k :: d[m] == Val(h[m])
    {
      d[k] := Val(h[k]);
      k := k + 1;
    }
  }

  /** What the CUDA solver prints. */
  function CudaReport(elapsed: string, mlups: string, center: string): seq<string>
  {
    ["CUDA run (GPU):"] + SerialHeat.ResultLines(elapsed, mlups, center)
  }

  /** Host initialisation, device allocation and the host-to-device copies, with
      the copy into d_uNew that the source leaves out: both buffers hold the
      initial field. */
  method DeviceSetup(ic: (int, int) -> real) returns (a: array<Word>, b: array<Word>)
    ensures fresh(a) && fresh(b) && a != b && a.Length == Nx * Ny && b.Length == Nx * Ny
    ensures a[..] == Device(InitGrid(ic, Nx, Ny)) && b[..] == Device(InitGrid(ic, Nx, Ny))
  {
    var host := new real[Nx * Ny];
    HostInit(host, ic);
    a := new Word[Nx * Ny](k => Garbage);
    b := new Word[Nx * Ny](k => Garbage);
    CopyToDevice(a, host);
    CopyToDevice(b, host);
    HostToDevice(host[..], a[..], ic);
    HostToDevice(host[..], b[..], ic);
  }

  /** A device buffer copied from the host array that the initial-condition loop
      filled holds the initial field, laid out by `IDX`. */
  lemma HostToDevice(host: seq<real>, d: seq<Word>, ic: (int, int) -> real)
    requires |host| == Nx * Ny && |d| == Nx * Ny
    requires forall i, j | 0 <= i < Nx && 0 <= j < Ny :: host[Idx(i, j, Ny)] == ic(i, j)
    requires forall k | 0 <= k < |d| :: d[k] == Val(host[k])
    ensures d == Device(InitGrid(ic, Nx, Ny))
  {
    var g := InitGrid(ic, Nx, Ny);
    forall i, j | 0 <= i < Nx && 0 <= j < Ny ensures d[Idx(i, j, Ny)] == Device(g)[Idx(i, j, Ny)] {
      DeviceAt(g, i, j);
    }
    BuffersEqual(d, Device(g));
  }

  /** The CUDA program with the second device buffer filled from the host as
      well (the source fills only d_u): it prints the serial solver's centre
      value, and its kernels perform 1000 * 198 * 198 updates. `argv` is not
      consulted. */
  method CudaMain(argv: seq<string>, ic: (int, int) -> real, elapsed: string, mlups: string,
                  format: real -> string) returns (stdout: seq<string>, ghost writes: nat)
    ensures Derive(Nx, Ny).Some?
    ensures stdout == CudaReport(elapsed, mlups,
               format(Iterate(InitGrid(ic, Nx, Ny), Derive(Nx, Ny).value, Nt)[100][100]))
    ensures writes == Nt * (Nx - 2) * (Ny - 2)
  {
    DeriveValid(Nx, Ny);
    var p := Derive(Nx, Ny).value;
    var a, b := DeviceSetup(ic);
    var du, dn;
    du, dn, writes := DeviceTimeLoop(a, b, Nt, p);
    RunCount();
    CenterAfterRun(InitGrid(ic, Nx, Ny), p, du[..]);
    var center := du[Idx(CDiv(Nx, 2), CDiv(Ny, 2), Ny)];
    stdout := CudaReport(elapsed, mlups, format(center.v));
  }

  /** The kernels of the whole run write `Nt * (Nx - 2) * (Ny - 2)` cells. */
  lemma RunCount()
    ensures Trips(0, Nt) * (Trips(1, Nx - 1) * Trips(1, Ny - 1)) == Nt * (Nx - 2) * (Ny - 2)
  {
    assert Trips(0, Nt) == Nt && Trips(1, Nx - 1) == Nx - 2 && Trips(1, Ny - 1) == Ny - 2;
  }

  /** After `Nt` steps from two copies of the field, `d_u`'s centre word holds
      the serial solver's centre value. */
  lemma CenterAfterRun(g: Grid, p: Params, du: seq<Word>)
    requires ValidParams(p) && Rect(g) && |g| == Nx && Width(g) == Ny
    requires du == DeviceRun(Device(g), Device(g), p, Trips(0, Nt)).0
    ensures 0 <= Idx(CDiv(Nx, 2), CDiv(Ny, 2), Ny) < |du|
    ensures du[Idx(CDiv(Nx, 2), CDiv(Ny, 2), Ny)] == Val(Iterate(g, p, Nt)[100][100])
  {
    assert Trips(0, Nt) == Nt;
    CorrectedMatchesSerial(g, p, Nt);
    assert CDiv(Nx, 2) == 100 && CDiv(Ny, 2) == 100;
    DeviceAt(Iterate(g, p, Nt), 100, 100);
  }
}
