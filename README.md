# Explicit 2-D heat diffusion: serial, OpenMP and CUDA solvers and the GUI's metric parser

This project models the solvers of a small heat-diffusion benchmark and proves properties of them in Dafny.

The solvers:
- `serial_heat.c`: a fixed 200 x 200 grid, 1000 steps.
- `omp_heat.c`: the size comes from the command line. It has two `collapse(2)` parallel loops per step, seven `Key: value` report lines and a CSV dump of the final field.
- `cuda_heat.py`: embeds a CUDA program with flat device buffers, a 16 x 16-block kernel launch and a pointer swap after every step.

The GUI, `heat_demo.py`, parses each solver's standard output into a metrics dictionary and shows it as text.

What the model does:
- Values are `real`. One step is the five-point update `u + alpha*dt*(uxx + uyy)` on interior cells. Boundary cells are never written.
- `dt = 0.25*min(dx^2, dy^2)/alpha` makes each neighbour weight at most 1/4. That gives the discrete maximum principle.
- The array loops are `array2` methods (serial and OpenMP) or `array<Word>` methods (CUDA). Each is proved against the pure specification in module `Heat` (`Step`, `Iterate`).
- An OpenMP parallel loop runs in an arbitrary schedule: any permutation of the collapsed iteration space. Every schedule gives the serial result.
- A CUDA device word is either `Val(v)` or `Garbage`: a word whose value is unspecified, because it was never written or was computed from such a word. This shows what the unfilled second buffer does.
- The GUI's `in`, `split`, `strip`, `int()` and f-string building are written out over `seq<char>` in module `Text`.

Modules:

| module | file | contents |
|---|---|---|
| `Wrappers` | `wrappers.dfy` | `Option` |
| `Text` | `text.dfy` | Python `split`/`join`/`strip`/`in`/`int()`, C `%d`, line streams |
| `Heat` | `heat.dfy` | the grid, parameters, stencil, step, iteration and their lemmas |
| `SerialHeat` | `serial_heat.dfy` | the reference solver |
| `OmpHeat` | `omp_heat.dfy` | the OpenMP solver |
| `CudaHeat` | `cuda_heat.dfy` | the CUDA solver |
| `HeatDemo` | `heat_demo.dfy` | the GUI's parsing and display |

Facts about the code that the model follows:
- Only the OpenMP solver reads `Nx Ny Nt` from the command line (omp_heat.c:10-16). The serial solver fixes 200, 200 and 1000 (serial_heat.c:7-8), and so does the CUDA program (cuda_heat.py:20-21). Neither reads `argv`.
- Only the OpenMP solver prints `Key: value` lines (omp_heat.c:76-82). The serial and CUDA solvers print aligned `Caption : value` lines with a space before the colon (serial_heat.c:58-61, cuda_heat.py:80-83). The GUI looks for `Key:` (heat_demo.py:220-234), so it reads nothing from them and shows its defaults (`HeatDemo.SerialReportKeepsDefaults`, `HeatDemo.CudaReportKeepsDefaults`).
- The OpenMP solver's CSV is just the rows of the field, with no comment lines and no row of column labels (omp_heat.c:89-95). The serial and CUDA solvers write no CSV.
- The file-open error goes to standard output, and the program exits with 1 (omp_heat.c:66-70).
- The repository also holds an error-analysis script (`error anaylsis/heat_error_analysis.py`). It compares the backends' CSV files (`calculate_errors`, lines 44-86) and writes an error report (`generate_error_report`, lines 88 onward). It is outside the modelled core. There is no hybrid backend among the sources.

## Model

| member | source | states |
|---|---|---|
| `Heat.DerivedIsStable` | serial_heat.c:11-12 | Parameters exist exactly when Nx, Ny >= 2. Then `alpha*dt/dx^2` and `alpha*dt/dy^2` both lie in [0, 1/4], so the stability bound holds. |
| `Heat.StencilWeights` | serial_heat.c:38-40 | The update equals `(1-2Rx-2Ry)*u + Rx*(up+down) + Ry*(left+right)`: a weighted average of the five old values. |
| `Heat.StencilWithin` | serial_heat.c:38-40 | Under the stability bound, the new value lies between any bounds that hold the five old values (the discrete maximum principle). |
| `Heat.AverageWithin` | serial_heat.c:38-40 | A combination with non-negative weights summing to one stays within the bounds of its inputs. |
| `Heat.StepIsLocal` | serial_heat.c:38-40 | A new interior value depends on the old field only at the cell and its four neighbours. |
| `Heat.BoundaryFixed` | serial_heat.c:44-46 | After any number of steps, every boundary cell still holds its initial value. |
| `Heat.StepWithin` | serial_heat.c:36-42 | Under the stability bound, one step keeps the whole field inside any [lo, hi] it started in. |
| `Heat.IterateWithin` | serial_heat.c:35-47 | Under the stability bound, no value leaves the range of the initial field during a run. |
| `Heat.IterateSameBoundary` | serial_heat.c:35-47 | The field after n steps has the same boundary as the initial field. |
| `Heat.IterateBoundariesAgree` | serial_heat.c:35-47 | Any two time levels of a run share their boundary. |
| `SerialHeat.InitField` | serial_heat.c:23-28 | After the loop, every cell (i, j) holds the initial condition at (i, j). |
| `SerialHeat.StencilSweep` | serial_heat.c:36-42 | Every interior `uNew[i][j]` is the stencil of the pre-sweep `u`, and no other cell of `uNew` changes. It makes Trips(1, Nx-1)*Trips(1, Ny-1), that is (Nx-2)(Ny-2) when Nx, Ny >= 2 and 0 otherwise, assignments. `u` is not in the frame. |
| `SerialHeat.CopyInterior` | serial_heat.c:44-46 | `u`'s interior becomes `uNew`'s interior. `u`'s boundary keeps its old values. |
| `SerialHeat.TimeStep` | serial_heat.c:36-46 | One pass of the time loop leaves `u` holding `Step` of its old field. `uNew`'s interior then equals the new `u`'s interior, and its boundary is unchanged. |
| `SerialHeat.TimeLoop` | serial_heat.c:35-47 | After the loop, `u` holds the field stepped max(Nt, 0) times. When Nt > 0, `uNew`'s interior equals `u`'s; otherwise `uNew` is untouched. Its boundary never changes. The sweeps write Trips(0, Nt) times Trips(1, Nx-1)*Trips(1, Ny-1), that is (Nx-2)(Ny-2) when Nx, Ny >= 2 and 0 otherwise, cells. |
| `SerialHeat.SerialMain` | serial_heat.c:6-61 | `argv` is ignored. The run writes 1000*198*198 cells, and the printed centre is cell [100][100] of the 200 x 200 initial field stepped 1000 times. |
| `SerialHeat.FixedCount` | serial_heat.c:54 | For the fixed size, the loops' write count equals `Nt*(Nx-2)*(Ny-2)`, the throughput numerator. |
| `OmpHeat.SelectSize` | omp_heat.c:7-16 | Nx and Ny come from `argv[1..2]` only when argc >= 3, and Nt from `argv[3]` only when argc >= 4. Otherwise they are 200, 200 and 1000. |
| `OmpHeat.CollapsedCell` | omp_heat.c:48-50 | Every iteration of the collapsed loop is an interior cell. |
| `OmpHeat.CollapsedDistinct` | omp_heat.c:48-50 | Distinct collapsed iterations visit distinct cells, so no two iterations write the same cell. |
| `OmpHeat.CollapsedVisits` | omp_heat.c:48-50 | Interior cell (i, j) is iteration (i-1)(Ny-2)+(j-1). |
| `OmpHeat.CollapsedLength` | omp_heat.c:48-50 | The collapsed space has Trips(Nx-2)*Trips(Ny-2) iterations. |
| `OmpHeat.ScheduleCovers` | omp_heat.c:48-50 | Any schedule of the collapsed loop visits only interior cells, every interior cell, and Trips(1, Nx-1)*Trips(1, Ny-1), that is (Nx-2)(Ny-2) when Nx, Ny >= 2 and 0 otherwise, of them. |
| `OmpHeat.ParallelStencil` | omp_heat.c:48-55 | In any schedule, `uNew` ends with the serial sweep's interior values, computed from `u` alone. Its boundary is unchanged. |
| `OmpHeat.ParallelCopy` | omp_heat.c:56-61 | In any schedule, `u`'s interior becomes `uNew`'s and its boundary is untouched. |
| `OmpHeat.ParallelTimeStep` | omp_heat.c:48-61 | One step, whatever both loops' schedules are, leaves `u` holding `Step` of its old field. `uNew`'s interior then equals the new `u`'s interior, and its boundary is unchanged. |
| `OmpHeat.OmpTimeLoop` | omp_heat.c:47-62 | Under any schedules, the run leaves the serial solver's field stepped max(Nt, 0) times. `uNew` ends as in the serial loop. The stencil writes Trips(0, Nt) times Trips(1, Nx-1)*Trips(1, Ny-1), that is (Nx-2)(Ny-2) when Nx, Ny >= 2 and 0 otherwise, cells. |
| `OmpHeat.PrintedCountIsExact` | omp_heat.c:72 | With Nt >= 0 and Nx, Ny >= 2, `Nt*(Nx-2)*(Ny-2)`, the update count behind the printed throughput, equals the number of writes performed. |
| `OmpHeat.NothingUpdated` | omp_heat.c:47-50 | No cell is updated exactly when Nx <= 2, Ny <= 2 or Nt <= 0. |
| `OmpHeat.PrintedCountOffForTinyGrid` | omp_heat.c:72 | For Nx = Ny = 1 and Nt = 1, the update count behind the printed throughput is 1 while no cell is updated. |
| `OmpHeat.CenterInBoundsIff` | omp_heat.c:82 | The read `u[Nx/2][Ny/2]`, using C division, is in bounds exactly when Nx >= 1 and Ny >= 1. |
| `OmpHeat.CsvReadsBack` | omp_heat.c:89-95 | The CSV has one line per row, then nothing after the last newline. Line i splits at commas into row i's formatted values in order, and holds Ny-1 commas. |
| `OmpHeat.WriteCsv` | omp_heat.c:89-95 | The text the nested `fprintf` loops write is the CSV of the field, so `CsvReadsBack` applies to it. |
| `OmpHeat.Solve` | omp_heat.c:22-62 | After allocation, initialisation and the time loop, `u` holds the initial field stepped max(Nt, 0) times, or left as is when the grid has fewer than two points along an axis. The stencil writes exactly `PerformedUpdates` cells, the count `PrintedCountIsExact` and `NothingUpdated` are about. |
| `OmpHeat.OmpMain` | omp_heat.c:6-95 | If the file cannot be opened, the run prints only the error, exits 1 and writes no CSV. If the centre is out of bounds, the behaviour is undefined. Otherwise it exits 0 with the seven report lines, the centre of the final field, and the field's CSV. On every path the run performs `PerformedUpdates` stencil writes. |
| `CudaHeat.IdxInRange` | cuda_heat.py:7 | `IDX(i,j,Ny)` of a cell in [0,Nx)x[0,Ny) lies in [0, Nx*Ny). |
| `CudaHeat.IdxInverse` | cuda_heat.py:7 | `IDX(i,j,Ny) / Ny == i` and `IDX(i,j,Ny) % Ny == j`. |
| `CudaHeat.IdxBijective` | cuda_heat.py:7 | `IDX` maps the grid's cells one-to-one and onto the positions [0, Nx*Ny). |
| `CudaHeat.LaunchCovers` | cuda_heat.py:55-56 | Every interior index along an axis is computed by a thread of a block inside the launch grid. |
| `CudaHeat.ThreadUnique` | cuda_heat.py:10-11 | Two threads that compute the same index along an axis are the same block and thread. |
| `CudaHeat.ThreadsWriteDistinctWords` | cuda_heat.py:10-15 | Two distinct threads of one launch that pass the guard write distinct words of `uNew`. |
| `CudaHeat.GridCovers` | cuda_heat.py:56 | For every n >= 0 points along an axis, the grid of `(n-2+15)/16` blocks of 16 launches at least n-2 threads. |
| `CudaHeat.KernelThread` | cuda_heat.py:10-16 | A thread writes only its own cell of `uNew`, and only when that cell passes the guard, that is, when it is interior. It reads only `u`. |
| `CudaHeat.UpdateKernel` | cuda_heat.py:9-17 | A whole launch leaves `uNew` with every interior cell updated from `u` and every other word unchanged, and makes (Nx-2)(Ny-2) writes. |
| `CudaHeat.KernelAt` | cuda_heat.py:12-15 | After a launch, a cell of `uNew` is the stencil of `u` if it is interior, and otherwise its old word. |
| `CudaHeat.DeviceTimeLoop` | cuda_heat.py:59-63 | After the loop, `d_u` is the originally copied buffer exactly when the step count is even. The two buffers hold the launch-and-swap sequence, and the kernels wrote Trips(Nt)*(Nx-2)(Ny-2) words. |
| `CudaHeat.KernelOnDevice` | cuda_heat.py:12-15 | A launch reading a laid-out field, onto a buffer that shares its boundary, produces the laid-out `Step` of that field. |
| `CudaHeat.CorrectedMatchesSerial` | cuda_heat.py:59-63 | With both buffers filled from the host, after n steps `d_u` holds the serial field stepped n times and `d_uNew` holds the previous one. |
| `CudaHeat.GarbageIn` | cuda_heat.py:13-15 | A thread that reads an unwritten word stores an unspecified word. |
| `CudaHeat.GarbageSpreads` | cuda_heat.py:42-46 | As written, from step 2 on every interior cell within n-1 of the edge holds a value computed from uninitialised memory. |
| `CudaHeat.AsWrittenCenterIsGarbage` | cuda_heat.py:42-63 | As written, the centre word after the fixed 1000-step run depends on uninitialised memory. |
| `CudaHeat.DeriveValid` | cuda_heat.py:24-25 | The parameters derived for at least two points per axis exist and are valid. |
| `CudaHeat.HostInit` | cuda_heat.py:33-38 | The host loop stores the initial condition at `u[IDX(i,j,Ny)]` for every cell. |
| `CudaHeat.CopyToDevice` | cuda_heat.py:46 | After the copy, every device word holds the host value at the same position. |
| `CudaHeat.HostToDevice` | cuda_heat.py:46 | A buffer copied from the initialised host array holds the initial field laid out by `IDX`. |
| `CudaHeat.DeviceSetup` | cuda_heat.py:29-46 | Corrected setup: both device buffers hold the laid-out initial field. The source copies only into d_u (see Left out). |
| `CudaHeat.AsWrittenSetup` | cuda_heat.py:29-46 | Setup as written: d_u holds the laid-out initial field and d_uNew holds only uninitialised words. |
| `CudaHeat.AsWrittenRun` | cuda_heat.py:42-73 | As written: after the setup, 1000 launches and their swaps, the centre word copied back is computed from uninitialised memory. |
| `CudaHeat.RunCount` | cuda_heat.py:76 | The kernels' total writes over the fixed run equal `Nt*(Nx-2)*(Ny-2)`, the update count behind the printed throughput. |
| `CudaHeat.CenterAfterRun` | cuda_heat.py:83 | With both buffers filled, the centre word of `d_u` after 1000 steps is the serial solver's centre value. |
| `CudaHeat.CudaMain` | cuda_heat.py:19-83 | Corrected program: `argv` is ignored. It prints the serial solver's centre value under the CUDA header and performs 1000*198*198 updates. |
| `Text.SplitPieces` | heat_demo.py:209 | No piece of `split(sep)` holds the separator. There is more than one piece exactly when the separator occurs. |
| `Text.JoinSplit` | heat_demo.py:209 | Joining the pieces of a split with the separator gives the text back. |
| `Text.SplitJoin` | omp_heat.c:90-92 | Joining separator-free pieces and splitting again gives the pieces back. |
| `Text.SplitConcat` | heat_demo.py:114 | Splitting `x + sep + y` splits the two sides independently. |
| `Text.JoinCount` | omp_heat.c:92 | Joining n separator-free pieces writes exactly n-1 separators. |
| `Text.JoinAvoids` | omp_heat.c:90-92 | A character that no piece holds and that is not the separator is not in the join. |
| `Text.SplitEmit` | heat_demo.py:209 | Splitting newline-terminated lines at `'\n'` gives the lines back, then the text after the last newline. |
| `Text.KeyBeforeColon` | heat_demo.py:220-234 | In a line with one colon, `key:` occurs exactly when the text before the colon ends with the key. |
| `Text.StripCutsSpaces` | heat_demo.py:222 | `strip()` leaves no white space at either end and returns a slice of its input. |
| `Text.StripPadded` | heat_demo.py:222 | `strip()` of white space followed by trimmed text gives that text. |
| `Text.IntRoundTrip` | heat_demo.py:114 | `int()` reads back what `%d`/`str()` printed, for every integer. |
| `Text.IntAfterSpace` | heat_demo.py:114 | `int()` skips white space in front of a printed integer, but text with one of the information separators U+001C..U+001F there is rejected, as `int()` does not strip them. |
| `Text.IntTextPlain` | omp_heat.c:78 | A printed integer holds no colon, comma, `x` or white space. |
| `HeatDemo.GridSizeRoundTrip` | heat_demo.py:114 | The grid size read from an `NxN` entry is N. |
| `HeatDemo.FirstKey` | heat_demo.py:220-234 | A key found is one whose `Key:` occurs in the line. |
| `HeatDemo.FirstKeyNone` | heat_demo.py:220-234 | No key is found exactly when the line mentions none of them. |
| `HeatDemo.FirstKeyIsEarliest` | heat_demo.py:220-234 | The key found is the earliest in the chain's order that the line mentions. |
| `HeatDemo.FirstKeyChain` | heat_demo.py:220-234 | The lookup agrees with the `elif` chain's order, with `TimeSteps:` tested before `Time:`. |
| `HeatDemo.ApplyLineFirst` | heat_demo.py:220-234 | A line read as key k stores its field value under k. |
| `HeatDemo.ApplyLineOther` | heat_demo.py:220-234 | A line leaves every key it is not read as unchanged, so each line updates at most one metric. |
| `HeatDemo.UpdateMetrics` | heat_demo.py:220-234 | One pass of the `elif` chain has the effect of `ApplyLine`. |
| `HeatDemo.ParseMetrics` | heat_demo.py:209-234 | The loop leaves the defaults updated by every line of `output.split('\n')`, in order. |
| `HeatDemo.UnmatchedLinesKeep` | heat_demo.py:220-234 | Lines that mention no key leave every metric as it was. |
| `HeatDemo.LaterLineWins` | heat_demo.py:220-234 | A key's value comes from the last line read as that key. |
| `HeatDemo.ParseAppendFirst` | heat_demo.py:220-234 | Appending a line read as k makes k hold that line's value. |
| `HeatDemo.ParseAppendOther` | heat_demo.py:220-234 | Appending a line not read as k leaves k unchanged. |
| `HeatDemo.KeyLineParses` | heat_demo.py:222 | A printed `Key: value` line, with a colon-free trimmed value, is read as that key, and its stored value is the printed value. |
| `HeatDemo.KeyLineValue` | heat_demo.py:222 | The stripped text between the first and second colon of `a: v` is v. |
| `HeatDemo.NoKeyLine` | heat_demo.py:220-234 | A line whose single colon follows text that ends like no key is read as no key. |
| `HeatDemo.KeyLinesRead` | heat_demo.py:220-234 | Reading one `Key: value` line per key, in the chain's order, stores each value under its key. |
| `HeatDemo.WrittenAt` | heat_demo.py:220-234 | After those lines, key i holds the i-th value. |
| `HeatDemo.OmpReportLines` | omp_heat.c:76-82 | The report is seven `Key: value` lines in the order Implementation, Threads, GridSize, TimeSteps, Time, Throughput, CenterValue. Threads is 4 and GridSize is `<Nx>x<Ny>`. |
| `HeatDemo.OmpReportParses` | heat_demo.py:209-234 | Parsing the OpenMP output stores its seven printed values under their keys, in order. |
| `HeatDemo.OmpReportRoundTrip` | heat_demo.py:209-234 | Parsing the OpenMP output recovers every printed value, whatever the defaults were. |
| `HeatDemo.SerialReportKeepsDefaults` | heat_demo.py:209-234 | Parsing the serial solver's output changes nothing: every metric keeps its default. |
| `HeatDemo.CudaReportKeepsDefaults` | heat_demo.py:209-234 | Parsing the CUDA solver's output changes nothing: every metric keeps its default. |
| `HeatDemo.ResultLinesMentionNoKey` | serial_heat.c:59-61 | None of the three aligned result lines, with their space before the colon, is read as a key. |
| `HeatDemo.AlignedLineNoKey` | serial_heat.c:59-61 | A `caption : value unit` line whose caption ends in a space mentions no key. |
| `HeatDemo.ReportMentionsNoKey` | heat_demo.py:209-234 | Output of newline-free lines that mention no key leaves the defaults, for any column and grid size. |
| `HeatDemo.ThreadsLineIff` | heat_demo.py:258-266 | The display holds a `Threads:` line exactly when Threads is not "N/A". The other seven lines always appear, in fixed order. |
| `HeatDemo.ShowMetrics` | heat_demo.py:258-266 | The string built with `+=` is the display lines, each followed by a newline. |

## Left out

- Floating point: all arithmetic is over `real`. IEEE rounding and `float` conversions are not modelled. Nx or Ny == 1 divides by zero in `dx = Lx/(Nx-1)`: `dx` or `dy` is then `inf`, so the term `0*dx` in the initial condition (omp_heat.c:38) is NaN, the whole field is NaN, and the program prints `CenterValue: nan` and writes NaN to the CSV, where the model's real-valued `ic` gives a number. Nx or Ny <= 0 gives a non-positive spacing and, with it, empty loops. For every Nx or Ny < 2, `Derive` returns `None` and the loops, provably empty, are skipped.
- The initial condition `exp(-50*(x^2+y^2))` is the parameter `ic`: the value of the Gaussian is never used by any property.
- Timing is left out: `clock_gettime`, `omp_get_wtime` and CUDA events. Elapsed time and MLUPS enter the reports as preformatted strings.
- Number formatting is abstract. `%f`, `%.6f`, `%.2f` and `%.10e` are the parameters `format`, `fixed` and `sci`. Integers (`%d`) are written out.
- OpenMP and CUDA concurrency: each parallel loop is modelled as some sequential order of its iterations. For OpenMP, any permutation; for CUDA, thread by thread. Memory races beyond these orders, and `cudaDeviceSynchronize`, are not modelled.
- OmpHeat.Solve: the `collapse(2)` initial-condition loop (omp_heat.c:35-41) runs in row order. Its iterations write distinct cells and read nothing that any iteration writes, so the order does not matter.
- The `fopen` outcome is the boolean `fileOpens`. File creation, `fprintf` buffering, `free`, `malloc`, `cudaMalloc`, `cudaFree` and the copy-back `cudaMemcpy` are left out. CUDA `u[IDX(...)]` is read straight from `d_u` instead of the host copy.
- `atoi` is the opaque parameter `atoi`. Its value is not range-checked, as in the source. A negative Nx or Ny allocates nothing in the model, where C would call `malloc` with a negative size.
- OmpHeat.OmpMain: with the centre out of bounds the result is `Undefined`. The model does not say what the C program does then.
- CudaHeat.DeviceSetup: copies into d_uNew as well, unlike cuda_heat.py:46, which fills only d_u. `CudaHeat.AsWrittenSetup` is the setup as written: d_uNew stays uninitialised.
- CudaHeat.CudaMain models the corrected program (both buffers copied). The as-written behaviour is `AsWrittenSetup`, `AsWrittenRun`, `GarbageSpreads` and `AsWrittenCenterIsGarbage`. The device size is fixed at 200 x 200, as in the source.
- CudaHeat.UpdateKernel runs threads in row-major global order. Each thread writes one distinct word and reads only `u`, so any order gives the same buffer. That is proved for the OpenMP loops, not for the kernel's thread order.
- `cuda_heat.py:96-97` only writes the CUDA source to a file.
- The GUI's Tk widgets, matplotlib plotting (a synthetic Gaussian, not solver output), `subprocess` launching, the platform check and the exception handling in `run_solver` are left out.
- HeatDemo.GridSizeOf: only ASCII digits without underscores are accepted, after optional white space other than the information separators U+001C..U+001F (which `isspace()` accepts but `int()` rejects), and one sign. Python's `int()` also accepts `1_000` and non-ASCII decimal digits, and the combobox read at heat_demo.py:114 is editable (heat_demo.py:34-36 does not make it read-only). `int()` failing is `None`. The GUI's exception path after it is not modelled.
- The error-analysis script `error anaylsis/heat_error_analysis.py` is not modelled. It loads the backends' CSV files and computes error metrics between them (`calculate_errors`, lines 44-86). It writes an error report (`generate_error_report`, lines 88 onward) and plots. It lies outside the modelled core. Its loader reads the first non-comment line as column labels (`header=0`, line 35), which the OpenMP CSV does not provide. No hybrid backend or CSV header writer exists in the sources.

## Findings

| source | as written | input that shows it | evidently intended | confidence | as-written member | corrected member |
|---|---|---|---|---|---|---|
| cuda_heat.py:42-46 | `d_uNew` is allocated but never filled from the host. The kernel never writes boundary cells, so after the first pointer swap the buffer `d_u` names has an uninitialised boundary. From step 2 on, interior cells next to the boundary are computed from uninitialised memory, and the corruption moves one cell inward per step. | The fixed run: 200 x 200 cells, 1000 steps, any initial field. After step 2, cell (1,1) reads `d_uNew`'s unset boundary. After 1000 steps the centre (100,100) is affected. | Copy the initial field into both device buffers, or otherwise set `d_uNew`'s boundary, so boundary values stay fixed and the device run equals the serial solution. | not executed | `CudaHeat.AsWrittenCenterIsGarbage` | `CudaHeat.CorrectedMatchesSerial` |
