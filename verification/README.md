# Threaded Mandelbrot renderer and predicated-lane kernels, modelled in Dafny

This project models the two programs of the first assignment of a parallel
programming course:

- the threaded Mandelbrot renderer: the escape-time kernel `mandel`, the
  serial row renderer `mandelbrotSerial`, the static row partition of
  `workerThreadStart`, and the dispatch of `mandelbrotThread`, which rejects
  more than 32 threads and runs worker 0 on the calling thread;
- the vector-intrinsics kernels: `absSerial`/`absVector`,
  `clampedExpSerial`/`clampedExpVector` and `arraySumSerial`. These are
  written against a W-lane vector library with predicate masks. The model
  defines that library itself, in module `Intrin`.

Files and modules:

- `arith.dfy` (`Arith`): two integer facts shared by the row and chunk arithmetic.
- `mandelbrot.dfy` (`Mandelbrot`): complex points, the viewport, `mandel`, the
  pixel mapping, the row-major index layout and `mandelbrotSerial`.
- `threads.dfy` (`Threads`): the row partition, the worker arguments,
  `workerThreadStart`, `mandelbrotThread`, and the partition-invariance lemmas.
- `intrin.dfy` (`Intrin`): masks, the masked-update rule, the loads, stores,
  arithmetic and comparisons the kernels use, `cntbits`, and two's-complement
  `&` and `>>` on integer lanes.
- `functions.dfy` (`Functions`): the kernels and their serial twins.

Floats are reals. Buffers are sequences, and every routine returns the
updated buffer instead of writing through a pointer. A pointer offset such as
`values + N_vec` becomes a `base` index. The lane width `VECTOR_WIDTH` comes
from a header that is not part of this model. It is a parameter `w >= 1`
here, so every result holds for every width.

The threads are not modelled as threads. Each worker writes only the rows it
owns, so running a worker body changes only those rows. Worker bodies are
therefore composed one after another. `Threads.ApplyWorkersAnyOrder` shows
that the order, and even repeats, do not change the result.

Three behaviours of the code are worth stating, because they are easy to
misread:

- In `clampedExpVector`, `xpower` and `y` are updated under the all-ones
  mask (asst1-s18/prog2_vecintrin/functions.cpp:117-118). A lane whose `y` has
  reached 0 keeps squaring `xpower`; only `result` is guarded, by the odd-bit
  mask. The model does the same, and `Functions.StepKeepsOutcome` shows why
  this is harmless once `y` is 0.
- `absSerial` and `absVector` test `x < 0`
  (asst1-s18/prog2_vecintrin/functions.cpp:12 and :42). That test is false
  for `-0.0`, so `-0.0` is stored unchanged. Reals have no negative zero, so
  the model cannot show this.
- `arraySumVector` has an empty body
  (asst1-s18/prog2_vecintrin/functions.cpp:139-142).

Several definitions carry the code's formulas and are used by the contracts
above rather than stated on their own:
- `Threads.StartRow` and `Threads.TotalRows`: a worker's row range.
- `Mandelbrot.PixelPoint`: the pixel-to-point mapping.
- `Functions.ExpStep`, `Functions.ExpLoop` and `Functions.ClampedExp`: one
  pass of the squaring loop, the whole loop, and the clamped result.
- `Intrin.BitAnd` and `Intrin.ShiftRight`: integer `&` and `>>`.
- The `Intrin.V*` lane operations.

## Model

| member | source | states |
|---|---|---|
| `Mandelbrot.MandelFrom` | asst1-s18/prog1_mandelbrot_threads/mandelbrot.cpp:54-63 | the counting loop entered at iteration i either stops at i or runs to some r with i < r <= count |
| `Mandelbrot.Mandel` | asst1-s18/prog1_mandelbrot_threads/mandelbrot.cpp:50-66 | `mandel` returns a count r with 0 <= r, r <= count when count >= 0, and r = 0 when count <= 0 |
| `Mandelbrot.MandelIsFirstEscape` | asst1-s18/prog1_mandelbrot_threads/mandelbrot.cpp:50-66 | the count is the first orbit index whose squared modulus exceeds 4, or the budget when no earlier point escapes; checked against the independent orbit z_0 = c, z_(k+1) = z_k^2 + c |
| `Mandelbrot.IndexLayout` | asst1-s18/prog1_mandelbrot_threads/mandelbrot.cpp:96 | for 0 <= i < width, index j*width+i has row j (quotient) and column i (remainder) |
| `Mandelbrot.IndexInjective` | asst1-s18/prog1_mandelbrot_threads/mandelbrot.cpp:91-97 | distinct (row, column) pairs with in-range columns map to distinct buffer indices |
| `Mandelbrot.IndexInRows` | asst1-s18/prog1_mandelbrot_threads/mandelbrot.cpp:89-97 | every index written for rows [startRow, startRow+totalRows) lies in [startRow*width, (startRow+totalRows)*width) |
| `Mandelbrot.RenderRowsAt` | asst1-s18/prog1_mandelbrot_threads/mandelbrot.cpp:91-97 | a row render stores the value of pixel (i, j) at index j*width+i, and that index is inside the buffer |
| `Mandelbrot.RenderRowsContents` | asst1-s18/prog1_mandelbrot_threads/mandelbrot.cpp:86-104 | a row render stores the value of each pixel (i, j) of its rows at j*width+i, and every index outside its rows keeps its old value |
| `Mandelbrot.FillOne` | asst1-s18/prog1_mandelbrot_threads/mandelbrot.cpp:96-97 | storing one pixel extends the filled prefix of the rows by exactly that index |
| `Mandelbrot.MandelbrotSerial` | asst1-s18/prog1_mandelbrot_threads/mandelbrot.cpp:79-104 | `mandelbrotSerial` writes `mandel` of the mapped point at j*width+i for every pixel of its rows; every other buffer index is unchanged |
| `Threads.DivRange` | asst1-s18/prog1_mandelbrot_threads/mandelbrot.cpp:145-153 | for q > 0, row r is in the block [k*q, k*q+q) exactly when r / q == k |
| `Threads.QuotientFits` | asst1-s18/prog1_mandelbrot_threads/mandelbrot.cpp:145 | numThreads blocks of height / numThreads rows fit in the image |
| `Threads.PartitionOwner` | asst1-s18/prog1_mandelbrot_threads/mandelbrot.cpp:145-156 | worker k's range [k*(H/P), k*(H/P)+rows_k) contains a row exactly when it is an image row whose owner is k; the owner is min(row/(H/P), P-1) when H >= P, and P-1 for every row when H < P (then H/P is 0, and only the last worker has rows) |
| `Threads.RangesDisjoint` | asst1-s18/prog1_mandelbrot_threads/mandelbrot.cpp:145-153 | no row lies in the ranges of two different workers |
| `Threads.RangesCover` | asst1-s18/prog1_mandelbrot_threads/mandelbrot.cpp:145-153 | a row lies in some worker's range exactly when it is in [0, H) |
| `Threads.RangeBounds` | asst1-s18/prog1_mandelbrot_threads/mandelbrot.cpp:145-153 | every range starts at a row >= 0, has a count >= 0 and ends by H; the last worker gets H/P + H%P rows and ends exactly at H |
| `Threads.RowAtLeast` | asst1-s18/prog1_mandelbrot_threads/mandelbrot.cpp:96 | index idx is at or past the start of row a exactly when its row idx / width is at least a |
| `Threads.WorkerRenderOwned` | asst1-s18/prog1_mandelbrot_threads/mandelbrot.cpp:145-156 | worker k changes buffer index idx exactly when idx is an image pixel whose row k owns, and then stores that pixel's value |
| `Threads.WorkerThreadStart` | asst1-s18/prog1_mandelbrot_threads/mandelbrot.cpp:125-159 | `workerThreadStart` renders exactly the image pixels in the rows its thread id owns and leaves the rest of the buffer alone |
| `Threads.ApplyWorkersAnyOrder` | asst1-s18/prog1_mandelbrot_threads/mandelbrot.cpp:211-218 | after worker bodies run in any order, repeats allowed, a pixel holds its value exactly when its owner was among them; otherwise the old value |
| `Threads.AllWorkersRenderWholeImage` | asst1-s18/prog1_mandelbrot_threads/mandelbrot.cpp:145-156 | once all P workers have run, in any order, the buffer equals one serial render of rows [0, H) |
| `Threads.BuildWorkerArgs` | asst1-s18/prog1_mandelbrot_threads/mandelbrot.cpp:185-201 | worker i gets thread id i; all workers share the viewport, size, budget and thread count, and any two argument blocks differ only in the thread id |
| `Threads.Spawned` | asst1-s18/prog1_mandelbrot_threads/mandelbrot.cpp:211-212 | the spawned workers are 1, ..., numThreads-1, in creation order |
| `Threads.ApplyOneMore` | asst1-s18/prog1_mandelbrot_threads/mandelbrot.cpp:211-214 | running one more worker extends the composition by that worker's body |
| `Threads.DispatchOrderRunsAll` | asst1-s18/prog1_mandelbrot_threads/mandelbrot.cpp:211-214 | the order "spawned workers 1..P-1, then worker 0" contains every worker 0..P-1 and only those |
| `Threads.DispatchRendersWholeImage` | asst1-s18/prog1_mandelbrot_threads/mandelbrot.cpp:211-218 | running the spawned workers 1..P-1 and then worker 0 leaves the buffer equal to one serial render of rows [0, H) |
| `Threads.MandelbrotThread` | asst1-s18/prog1_mandelbrot_threads/mandelbrot.cpp:166-219 | more than 32 threads gives the fatal error and nothing else; otherwise the buffer equals one serial render of all rows, pixel (i, j) holding `mandel` of its point |
| `Intrin.InitOnes` | asst1-s18/prog2_vecintrin/functions.cpp:33-36 | `init_ones()` sets every lane and `init_ones(0)` clears every lane |
| `Intrin.CntBitsZero` | asst1-s18/prog2_vecintrin/functions.cpp:111-112 | `cntbits` of a mask is 0 exactly when no lane is set |
| `Intrin.CntBitsComplement` | asst1-s18/prog2_vecintrin/functions.cpp:48 | the set lanes of a mask and of its complement add up to all lanes |
| `Intrin.ComplementCover` | asst1-s18/prog2_vecintrin/functions.cpp:42-51 | two masked writes under a mask and its complement assign every lane exactly once, whatever the register held before |
| `Intrin.VStore` | asst1-s18/prog2_vecintrin/functions.cpp:54 | a masked store writes active lane k to element base+k and leaves every other element of the array unchanged |
| `Intrin.HalfShrinks` | asst1-s18/prog2_vecintrin/functions.cpp:118 | halving fixes 0 and -1 and moves every other integer toward them |
| `Intrin.BitAndZero` | asst1-s18/prog2_vecintrin/functions.cpp:114 | `x & 0` is 0 for every two's-complement integer |
| `Intrin.BitAndOne` | asst1-s18/prog2_vecintrin/functions.cpp:114 | `y & 1` is the low bit y % 2, for negative y as well |
| `Functions.AbsOf` | asst1-s18/prog2_vecintrin/functions.cpp:11-16 | the per-element absolute value is non-negative and is either x or -x |
| `Functions.AbsSerial` | asst1-s18/prog2_vecintrin/functions.cpp:9-18 | `absSerial` stores in output[i], i < N, a value >= 0 equal to values[i] or -values[i]; later elements are unchanged |
| `Functions.ChunkFits` | asst1-s18/prog2_vecintrin/functions.cpp:96 | a chunk that starts below a multiple n of W lies entirely below n |
| `Functions.AbsChunk` | asst1-s18/prog2_vecintrin/functions.cpp:39-51 | in one chunk, the negated lanes under the "negative" mask and the reloaded lanes under its complement give |x| in every lane |
| `Functions.AbsVector` | asst1-s18/prog2_vecintrin/functions.cpp:21-56 | when N is a multiple of W, `absVector` stores the same value as `absSerial` in every element below N; later elements are unchanged |
| `Functions.Clamp` | asst1-s18/prog2_vecintrin/functions.cpp:75-77 | a clamped value is at most 4.18, is the value itself when that is at most 4.18, and is 4.18 otherwise |
| `Functions.PowSquare` | asst1-s18/prog2_vecintrin/functions.cpp:72 | squaring the base halves the exponent: (p*p)^m = p^(2m) |
| `Functions.ExpLoopPow` | asst1-s18/prog2_vecintrin/functions.cpp:63-74 | the squaring loop started from result r, power p and y >= 0 ends with r * p^y, so from result 1 it computes x^e |
| `Functions.ClampedExpIsPow` | asst1-s18/prog2_vecintrin/functions.cpp:63-80 | the serial element is x^e capped at 4.18 for e >= 0, is 1 for e < 0 (the loop never runs), and never exceeds 4.18 |
| `Functions.ClampedExpSerial` | asst1-s18/prog2_vecintrin/functions.cpp:63-80 | `clampedExpSerial` stores in each of its N elements the clamped x^e for e >= 0, never more than 4.18; elements outside its range are unchanged |
| `Functions.StepKeepsOutcome` | asst1-s18/prog2_vecintrin/functions.cpp:109-119 | one loop pass on a lane with y == 0 leaves result and y as they are; on any lane with y >= 0 it keeps y >= 0 and the lane's final result |
| `Functions.PendingShrinks` | asst1-s18/prog2_vecintrin/functions.cpp:109-119 | halving all lanes never raises the total outstanding exponent and lowers it while some lane has y > 0, so the lock-step loop terminates |
| `Functions.LockStepPass` | asst1-s18/prog2_vecintrin/functions.cpp:114-118 | one pass of the lock-step body moves every lane by exactly one step of the serial loop body |
| `Functions.LockStepKeepsOutcome` | asst1-s18/prog2_vecintrin/functions.cpp:109-119 | after a pass every lane keeps a non-negative exponent, half the old one, and its eventual serial result |
| `Functions.ClampedExpChunk` | asst1-s18/prog2_vecintrin/functions.cpp:97-122 | one W-lane chunk, with non-negative exponents, yields in lane k exactly the value `clampedExpSerial` computes for element base+k |
| `Functions.VectorPart` | asst1-s18/prog2_vecintrin/functions.cpp:85 | N_vec = N - N % W is a multiple of W, at most N, and fewer than W elements remain after it |
| `Functions.ClampedExpVector` | asst1-s18/prog2_vecintrin/functions.cpp:82-125 | for any N, with non-negative exponents in the vector part, `clampedExpVector` stores in every element below N the value `clampedExpSerial` computes, at most 4.18; later elements are unchanged |
| `Functions.SumAppend` | asst1-s18/prog2_vecintrin/functions.cpp:128-135 | the left-to-right sum splits at any boundary: sum(a + b) = sum(a) + sum(b) |
| `Functions.ArraySumSerial` | asst1-s18/prog2_vecintrin/functions.cpp:128-135 | `arraySumSerial` returns the left-to-right sum of the first N values |

## Left out

- Threads: `pthread_create` and `pthread_join` and real concurrency. The worker bodies are composed in sequence (workers 1..P-1, then 0). `Threads.ApplyWorkersAnyOrder` covers every other order.
- `printf`, `fprintf` and `exit(1)`. The thread-ceiling error is the `TooManyThreads` outcome.
- The timer header, the logger header and the intrinsics header are not part of this model. The lane operations in `Intrin` follow the way the kernels use them. A comparison keeps the old mask bit in an inactive lane. The kernels only compare under the all-ones mask, so this choice never shows.
- IEEE-754 behaviour is not modelled: rounding, overflow to infinity, NaN and negative zero. Floats are reals, and the ceiling `4.18f` is the real 4.18. The exponentiation equivalence does not rely on real algebra, because each lane applies the same steps as the serial loop (`Functions.LockStepPass`). The power characterisation (`Functions.ExpLoopPow`) holds only over the reals.
- `Mandelbrot.PixelPoint`: when the width or height is 0, the source divides by zero in float. The model uses a step of 0 instead. With width 0 no pixel is drawn. With height 0 this matters only for a direct `mandelbrotSerial` call on a non-empty row range.
- 32-bit integer overflow of `j*width+i`, `k*(height/numThreads)` and similar products is not modelled. Integers are unbounded. The exponents only shrink toward 0, so the integer lanes cannot overflow.
- `Threads.WorkerThreadStart` and `Threads.MandelbrotThread` require a non-negative width and height. The argument block stores them as unsigned ints, so a negative value would wrap, and that is not modelled.
- `Threads.MandelbrotThread` requires at least one thread when the ceiling is not exceeded. With zero or fewer threads, the argument-filling loop never runs, and the source reads the uninitialised argument block `args[0]` (undefined behaviour).
- A buffer too small for the rows written is undefined behaviour in the source. The model requires the buffer to be large enough.
- Negative element counts N: counts are `nat`. Every loop of the source does nothing for N <= 0.
- `Functions.AbsVector` requires N % W == 0. Otherwise the source reads and writes past the arrays, as its own comment warns.
- `Functions.ClampedExpVector` requires non-negative exponents in the vector part [0, N - N % W). A negative exponent keeps `y & 1` set while other lanes run, so the lane multiplies its result where the serial loop would not. The serial remainder handles negative exponents like `clampedExpSerial`.
- `>>` by a negative amount is undefined in C. `Intrin.ShiftRight` leaves the value unchanged in that case. The kernels only shift by 1.
- `arraySumVector` has an empty body, so there is no behaviour to model.
