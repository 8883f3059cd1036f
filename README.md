# Lane-vector kernels: escape time, linear combine, trigonometric pipeline

This project models three benchmark kernels from the tsimd examples. Each exists twice: a
scalar reference loop, and an explicit lane-vector version that works on groups of
`N = vfloat::static_size` elements with masks.

- `mandelbrot.cpp`:
  - `scalar::mandel` and `tsimd::mandel` are the escape-time iteration for one point and for one group of `N` points.
  - `scalar::mandelbrot` and `tsimd::mandelbrot` fill a `width * height` image.
  - The vector version walks every row in groups of `N` columns and writes each group with a masked store.
- `saxpy.cpp`: `scalar::saxpy` and `tsimd::saxpy` compute `out[i] = a * x[i] + y[i]`. The vector version uses full-width loads and stores.
- `saxpy_trig.cpp`: `scalar::saxpy_trig` and `tsimd::saxpy_trig` compute `tan(a * sin(x) + cos(y))`, followed by ten more `tan`s. The result is written only where it exceeds 1: in the scalar version with an `if`, in the vector version with a masked store gated by `any`.

The kernels are methods over `array`s with loop invariants. The primitives tsimd supplies are functions on sequences of exactly `N` lanes. The store primitives are methods specified by those functions. The primitives are broadcast, lane-wise arithmetic and comparison, `select`, `none`/`any`, `lane_index`/`iota`, `load`, unmasked store and masked store.

Each kernel's final buffer is described by a function of the inputs and the old buffer: `EscapeTime`, `ScalarImage`/`TsimdImage`, `Combined`, `ScalarOut`/`VectorOut`. The lemmas relate those functions to each other: vector against scalar, which indices are touched, and what the buffer must hold.

Float values are symbolic (`Lanes.Float`). A value records the operations that produced it from literals, inputs and integer conversions, in the order the source applies them. The comparisons the kernels branch on are functions passed in by the caller (`Lanes.FloatOps`). So every result holds for any rounding, IEEE-754 single precision included. Facts that need real arithmetic appear as explicit hypotheses: that `<= 4` is the negation of `> 4`, and that an orbit which has escaped stays escaped.

Both masking anomalies are modelled exactly as written. Each vector kernel takes a `Guard` argument: `AsWritten` is the source's mask, and `InBounds` is the evidently intended one.

- The store mask at `mandelbrot.cpp:172` compares the lane's x coordinate, not its column, with the width.
- The lane test at `saxpy_trig.cpp:96` is false in lane 0.
- `tsimd::mandel` advances `z` in every lane (`mandelbrot.cpp:143-144`); only the counter goes through `select`.
- `tsimd::saxpy` has no boundary mask, so the model requires buffers of `GroupsEnd(n) = ceil(n/N)*N` elements.

## Model

| member | source | states |
|---|---|---|
| Lanes.BroadcastF | mandelbrot.cpp:169-170 | `vfloat(x)` (also the scalar operands `x0`, `dx`, `4.f`, `a` met by a vector) holds x in every lane |
| Lanes.BroadcastI | mandelbrot.cpp:133 | `vint vi(0)` (also `i`, `n`, `width` met by a vint) holds the value in every lane |
| Lanes.LaneIndex | mandelbrot.cpp:164-165 | `std::iota` over `laneIndex` from 0, and `lane_index<vint>()` at saxpy_trig.cpp:96, hold l in lane l |
| Lanes.ToFloat | mandelbrot.cpp:169 | a vint meeting the float `dx` is converted lane by lane |
| Lanes.AddF | mandelbrot.cpp:143-144 | lane-wise `+` on vfloats: lane l is the sum of the operands' lanes l |
| Lanes.SubF | mandelbrot.cpp:140 | lane-wise `-` on vfloats |
| Lanes.MulF | mandelbrot.cpp:140-141 | lane-wise `*` on vfloats |
| Lanes.AddI | mandelbrot.cpp:146 | lane-wise `+` on vints (`vi + 1`, `i + laneIndex`, `n + lane_index`) |
| Lanes.SinF | saxpy_trig.cpp:88 | `tsimd::sin` applies sin in every lane |
| Lanes.CosF | saxpy_trig.cpp:88 | `tsimd::cos` applies cos in every lane |
| Lanes.TanF | saxpy_trig.cpp:88-93 | `tsimd::tan` applies tan in every lane |
| Lanes.LtF | mandelbrot.cpp:172 | `x < width`: lane l of the mask is the comparison of lanes l |
| Lanes.LeF | mandelbrot.cpp:136 | `... <= 4.f`: lane l of the mask is the comparison of lanes l |
| Lanes.GtF | saxpy_trig.cpp:96 | `result > 1.f`: lane l of the mask is the comparison of lanes l |
| Lanes.LtI | mandelbrot.cpp:172 | the integer comparison `i + laneIndex < width` that the column guard in place of line 172 uses |
| Lanes.GtI | saxpy_trig.cpp:96 | `(n + lane_index) > n`: lane l of the mask is the integer comparison of lanes l |
| Lanes.And | mandelbrot.cpp:136 | the mask `&` (also at saxpy_trig.cpp:96) is on in a lane iff both operands are |
| Lanes.None | mandelbrot.cpp:137 | `none(active)`: no lane of the mask is on |
| Lanes.Any | saxpy_trig.cpp:97 | `any(write_result)`: some lane of the mask is on |
| Lanes.NoneIffNoneCounted | mandelbrot.cpp:137 | `none(m)` holds iff the number of lanes on in m is 0 |
| Lanes.AnyIffSomeCounted | saxpy_trig.cpp:97 | `any(m)` holds iff the number of lanes on in m is positive |
| Lanes.Load | saxpy.cpp:68-69 | lane l of `load(&mem[i])` is `mem[i + l]`, for a group inside the buffer |
| Lanes.Select | mandelbrot.cpp:146 | lane l of `select(m, a, b)` is `a[l]` where `m[l]` holds and `b[l]` elsewhere |
| Lanes.Store | saxpy.cpp:71 | an unmasked store sets `out[i .. i+N)` to the lanes and leaves every other element as it was |
| Lanes.StoreMasked | mandelbrot.cpp:177 | a masked store sets `out[i + l]` to lane l exactly where `m[l]` holds, and every other element keeps its value |
| Lanes.StoreMaskedIfAny | saxpy_trig.cpp:97-98 | `if (any(m)) store(v, &out[i], m)` leaves the buffer exactly as the masked store alone would |
| Lanes.MaskStoredNoneUnchanged | saxpy_trig.cpp:97-98 | a masked store whose mask has no lane on changes nothing |
| Lanes.MaskStoredAllOn | saxpy.cpp:71 | a masked store under an all-on mask is the unmasked store |
| Lanes.MaskStoredChanges | mandelbrot.cpp:177 | an element a masked store changes lies in the group, its lane is on, and it now holds that lane |
| Lanes.NoneIsNotAny | saxpy_trig.cpp:97 | `none(m)` holds exactly when `any(m)` does not |
| Lanes.GroupsEnd | saxpy.cpp:67 | the walk `for (i = 0; i < n; i += N)` ends at a multiple of N in `[n, n + N)` for n > 0, and at 0 for n <= 0 |
| Lanes.GroupsEndLeast | saxpy.cpp:67 | no multiple of N at least n lies below `GroupsEnd(n)` |
| Lanes.GroupsEndExact | saxpy.cpp:67 | the walk covers exactly n elements iff n >= 0 and n is a multiple of N |
| Lanes.GroupWritesAppend | mandelbrot.cpp:168-177 | one more masked store at `base + i` extends a walk of masked stores from i columns to i + N |
| Mandel.EscapeTime | mandelbrot.cpp:34-44 | the least k < count at which `z_k`, with `z_0 = c` and `z_{k+1} = z_k^2 + c`, has squared magnitude > 4; count when there is none; 0 when count <= 0 |
| Mandel.EscapeTimeUnique | mandelbrot.cpp:34-44 | any value with those properties is the escape time |
| Mandel.ScalarMandel | mandelbrot.cpp:32-47 | `scalar::mandel` returns the escape time, a value in `[0, count]`, 0 when count <= 0 |
| Mandel.BreakIterStops | mandelbrot.cpp:135-138 | before the iteration at which `tsimd::mandel` stops, some lane was active in every iteration; when it stops before maxIters, no lane is active |
| Mandel.BreakIterUnique | mandelbrot.cpp:135-138 | any iteration count with those properties is the one at which the loop stops |
| Mandel.ActiveLanes | mandelbrot.cpp:136 | the vector test `_active & (z_re*z_re + z_im*z_im <= 4)` on lanes holding `z_i` is the set of enabled lanes whose `z_i` is in the disk |
| Mandel.StepLanes | mandelbrot.cpp:140-144 | the vector update advances every lane from `z_i` to `z_{i+1}` |
| Mandel.AdvanceCounters | mandelbrot.cpp:146 | `select(active, vi + 1, vi)` adds one to a counter exactly in the lanes active in that iteration |
| Mandel.CountsMonotone | mandelbrot.cpp:146 | a lane's counter never decreases over the iterations |
| Mandel.IterateLanes | mandelbrot.cpp:136-146 | one pass of the loop body: it stops exactly when no lane is active, and otherwise advances the lanes and the counters to the next iteration |
| Mandel.MandelLanesBounds | mandelbrot.cpp:133-147 | every result lane lies in `[0, maxIters]`, and a lane not enabled on entry, or every lane when maxIters <= 0, is 0 |
| Mandel.TsimdMandel | mandelbrot.cpp:127-150 | `tsimd::mandel` returns, for every lane, the iterations before the loop stopped in which that lane was active; bounded by maxIters and 0 for lanes not enabled |
| Mandel.OrderedComparesConsistently | mandelbrot.cpp:136 | under comparisons by a real valuation, the vector test `<= 4` is the negation of the scalar test `> 4` |
| Mandel.CountIsEscapeTime | mandelbrot.cpp:135-147 | when the two tests agree and escape is permanent, the in-disk count over the first k iterations is min(k, escape time) |
| Mandel.NothingActiveAfterBreak | mandelbrot.cpp:136-138 | under the same hypotheses the early `break` skips no increment: no lane would be active in any later iteration |
| Mandel.LaneMatchesScalar | mandelbrot.cpp:127-150 | an enabled lane of `tsimd::mandel` equals `scalar::mandel` on that lane's point, under the same hypotheses |
| Mandelbrot.RowStartIsProduct | mandelbrot.cpp:66 | the start of row j is `j * width` |
| Mandelbrot.CellIndexInGrid | mandelbrot.cpp:66 | the index `RowStart(width, j) + i` of a cell (j, i) of the grid lies in `[0, width * height)` |
| Mandelbrot.ScalarRowWalkIsPart | mandelbrot.cpp:62-68 | the inner loop over row j stores exactly cells 0 .. upto-1 of the row, each with its escape time |
| Mandelbrot.ScalarMandelbrot | mandelbrot.cpp:49-70 | `scalar::mandelbrot` leaves the buffer as `ScalarImage`, for every buffer with room for `width * height` cells |
| Mandelbrot.ScalarImageCell | mandelbrot.cpp:61-68 | `output[j*width + i]` is the escape time of `(x0 + i*dx, y0 + j*dy)` for every cell of the grid |
| Mandelbrot.ScalarImageKeepsRest | mandelbrot.cpp:61-68 | `scalar::mandelbrot` writes no index at or beyond `width * height` |
| Mandelbrot.XLanesComputed | mandelbrot.cpp:169 | the kernel's `x0 + (i + laneIndex) * dx` holds, in lane l, the x coordinate of column i + l |
| Mandelbrot.ActiveMaskComputed | mandelbrot.cpp:172 | the kernel's mask `x < width` (or the intended `i + laneIndex < width`) is, in lane l, the guard on column i + l |
| Mandelbrot.MandelGroup | mandelbrot.cpp:169-175 | the lanes and mask of one group are columns i .. i+N-1 of the walk over row j |
| Mandelbrot.GroupFits | mandelbrot.cpp:177 | when every store of the kernel lands in the buffer, the masked store of each group does |
| Mandelbrot.MandelRow | mandelbrot.cpp:168-178 | the inner loop over the groups of row j performs the masked stores of the whole row walk, and nothing else |
| Mandelbrot.MandelRows | mandelbrot.cpp:167-179 | the outer loop performs the row walks for rows 0 .. height-1, in order |
| Mandelbrot.RowsWithIsRows | mandelbrot.cpp:167-179 | row walks with the values and masks of rows 0, 1, ... leave the buffer as `Rows` |
| Mandelbrot.TsimdMandelbrot | mandelbrot.cpp:152-180 | `tsimd::mandelbrot` leaves the buffer as `TsimdImage`, for every buffer in which each masked-on lane lands |
| Mandelbrot.TsimdImageUntouched | mandelbrot.cpp:177 | an index that no row's walk stores at (its column off the walk, or its mask lane off) keeps its old value |
| Mandelbrot.EmptyGridWritesNothing | mandelbrot.cpp:167-168 | with `width <= 0` or `height <= 0` neither kernel changes the buffer |
| Mandelbrot.InBoundsCell | mandelbrot.cpp:169-175 | with the column guard, the vector value of cell (j, d) is `scalar::mandel` of its point, when that lane's tests agree and escape is permanent |
| Mandelbrot.InBoundsMatchesScalar | mandelbrot.cpp:152-180 | with the column guard, `tsimd::mandelbrot` leaves the buffer exactly as `scalar::mandelbrot` does, under the per-cell hypotheses |
| Mandelbrot.InBoundsFitsIff | mandelbrot.cpp:172-177 | with the column guard, every store lands in a buffer of length len iff `width * height <= len` |
| Mandelbrot.AsWrittenStoresPastGrid | mandelbrot.cpp:172 | as written, a column d >= width of the last group whose x is below width means width is not a multiple of N and a buffer of `width * height` cells is overrun |
| Mandelbrot.AsWrittenSpillsPastGrid | mandelbrot.cpp:172-177 | as written, in a buffer long enough, that column of the last row is stored past `width * height` with its lane of the row walk |
| Mandelbrot.GuardsAgree | mandelbrot.cpp:172 | the two guards give the same image whenever `x < width` and `col < width` pick the same columns |
| Saxpy.ScalarSaxpy | saxpy.cpp:32-40 | `scalar::saxpy` sets `out[i] = a*x[i] + y[i]` for every i < n and leaves the rest of out as it was; x and y are unchanged unless out is the same array |
| Saxpy.CombineGroup | saxpy.cpp:68-71 | storing `a * xi + yi` for the group at i extends the combine from the first i elements to the first i + N |
| Saxpy.TsimdSaxpy | saxpy.cpp:65-73 | `tsimd::saxpy` sets `out[k] = a*x[k] + y[k]` for every `k < ceil(n/N)*N` and leaves the rest alone, for buffers that long |
| Saxpy.CombinedIgnoresOldOut | saxpy.cpp:34-39 | `out[0..n)` afterwards does not depend on the old contents of out, and `out[n..]` is the old contents |
| Saxpy.CombinedIdempotent | saxpy.cpp:34-39 | a second call with the same inputs changes nothing |
| Saxpy.TsimdMatchesScalar | saxpy.cpp:65-73 | for n a multiple of N, the two kernels leave out identical |
| Saxpy.TsimdWritesPastN | saxpy.cpp:67-71 | for other n > 0 the vector kernel also writes `out[n .. ceil(n/N)*N)`, which the scalar kernel leaves alone |
| SaxpyTrig.Refine | saxpy_trig.cpp:43-44 | the inner loop applies `tan` exactly `EXTRA_TANGENT_ITERATIONS` = 10 times |
| SaxpyTrig.RefineLanes | saxpy_trig.cpp:92-93 | the vector inner loop applies `tan` 10 times in every lane |
| SaxpyTrig.ScalarSaxpyTrig | saxpy_trig.cpp:34-50 | `scalar::saxpy_trig` sets `out[i]` to the pipeline's result iff i < n and the result is > 1, and leaves every other element as it was |
| SaxpyTrig.LaneMask | saxpy_trig.cpp:96 | the lane condition `(n + lane_index) > n` holds in lane l iff `n + l > n`; the intended one iff `i + l < n` |
| SaxpyTrig.TrigLanes | saxpy_trig.cpp:86-96 | every lane of the group computes the pipeline's result, and the write mask is on iff the lane condition holds and the result is > 1 |
| SaxpyTrig.TrigGroup | saxpy_trig.cpp:96-98 | every lane the group stores lies in the buffer, and the masked store extends the output from the groups below i to those below i + N |
| SaxpyTrig.TrigStep | saxpy_trig.cpp:85-99 | one pass of the loop advances the buffer by one group and leaves x and y intact from i + N on |
| SaxpyTrig.TsimdSaxpyTrig | saxpy_trig.cpp:83-100 | `tsimd::saxpy_trig` sets `out[k]` to the result iff k < `ceil(n/N)*N`, the lane condition holds and the result is > 1; every other element is untouched |
| SaxpyTrig.LaneZeroNeverStored | saxpy_trig.cpp:96 | as written, no index that is a multiple of N is ever written |
| SaxpyTrig.AsWrittenMatchesScalarOffLaneZero | saxpy_trig.cpp:83-100 | as written, with n a multiple of N, the two kernels agree at every index not in lane 0 |
| SaxpyTrig.LaneZeroDiverges | saxpy_trig.cpp:96 | as written, when element 0's result exceeds 1 the scalar kernel writes `out[0]` and the vector kernel does not |
| SaxpyTrig.AsWrittenStoresPastN | saxpy_trig.cpp:96-98 | as written, with n = 1, a buffer holding every scalar write is too short for the vector kernel's |
| SaxpyTrig.InBoundsMatchesScalar | saxpy_trig.cpp:83-100 | with the intended lane condition the two kernels leave out identical for every n, and need the same buffer |

## Left out

- The benchmark driver: `params`, the `BENCHMARK` registrations and `benchmark::State` loops, and the `sin_*`/`cos_*`/`tan_*` micro-benchmarks. They only time calls.
- The `openmp::` variants. Their loops are the scalar loops; the pragmas only ask the compiler to vectorise.
- IEEE-754 arithmetic: rounding, NaN, infinities, overflow. Values are symbolic and the comparisons are a parameter. Where a result needs real arithmetic, it is a hypothesis (see the two lines below).
- Mandel.LaneMatchesScalar, Mandel.CountIsEscapeTime, Mandel.NothingActiveAfterBreak: stated under two hypotheses, `ComparesConsistently` and `StaysEscaped`, rather than for every float input. `OrderedComparesConsistently` discharges the first for comparisons by a real valuation. The second (once `|z|^2 > 4` it stays so) holds for the exact iteration but is not proved here.
- Mandelbrot.InBoundsMatchesScalar: carries the same two hypotheses, for every cell of the grid.
- Mandelbrot.InBoundsCell: carries the same two hypotheses, for its one cell.
- The accuracy of `tsimd::sin`/`cos`/`tan` against `std::sin`/`cos`/`tan`. Both are the same symbolic operation applied lane by lane.
- tsimd internals: hardware width selection (N is fixed at 8 lanes), `alignas(64)` alignment, intrinsics.
- Signed 32-bit overflow of `n + lane_index`, `j * width + i`, `i += N` and `vi + 1`. Integers are unbounded, so the model assumes sizes small enough that none of these wraps. With wrap-around, `(n + lane_index) > n` would also fail in the top lanes when n is near `INT_MAX`.
- Partial overlap of buffers (`out == x + 1`, say). Arrays here alias only as whole arrays. The saxpy contracts are stated over the old contents, so they hold when out is x or y.
- Division by zero in `dx`/`dy` when width or height is 0. It yields a symbolic value, which no cell then uses.
- Mandelbrot.AsWrittenSpillsPastGrid: states the value stored past the grid as column d of the last row's walk (`RowVals`), which `RowValsAt` ties to lane `d % N` of `tsimd::mandel` on that group. It does not restate that lane through `MandelLanes`.

## Findings

| source | as written | input that shows it | evidently intended | confidence | as-written member | corrected member |
|---|---|---|---|---|---|---|
| saxpy_trig.cpp:96 | `(n + lane_index<vint>()) > n` is false in lane 0 and true in every other lane, whatever i is, so it neither enables lane 0 nor bounds the stores by n | n = 8 and an element 0 whose result exceeds 1: `scalar::saxpy_trig` writes `out[0]`, `tsimd::saxpy_trig` never does. n = 1 and an element 1 whose result exceeds 1: the vector kernel writes `out[1]`, past n | `(i + lane_index<vint>()) < n`, a true boundary mask | not executed | SaxpyTrig.LaneZeroDiverges | SaxpyTrig.InBoundsMatchesScalar |
| mandelbrot.cpp:172 | `x < width` compares the lane's x coordinate, not its column, with the width | width = 1020, height = 768, x0 = -2, x1 = 1: columns 1020..1023 of the last group in each row have x near 1, below 1020, so the last row stores at `output[783360 .. 783363]`, past the 783360 cells | `i + laneIndex < width` | not executed | Mandelbrot.AsWrittenStoresPastGrid | Mandelbrot.InBoundsMatchesScalar |
