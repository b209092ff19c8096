# Partitioned timestamp transform — Dafny model

This project models the benchmark script `multi_processing.py`. The script
generates a column of two million hourly timestamps. It shifts every
timestamp by one hour, first with a sequential elementwise apply and then
with a worker pool. The pool splits the column into contiguous chunks of
size `len // cpu_count`, maps the worker function over the chunks in order,
and concatenates the results.

Modelling choices:

- A timestamp is an integer number of minutes since the script's fixed start, 1993-12-09 00:00 (`Dates.Epoch`, minute 0).
- The host's CPU count is a parameter `k >= 1`.
- The worker pool is an order-preserving sequential map (`Sequences.Map`). Results are reassembled in chunk order.
- The error raised by `range()` when the chunk size is zero is `Partition.Failure(ZeroStep)`.

Modules:

- `Sequences` (sequences.dfy): ordered map and in-order concatenation.
- `Dates` (dates.dfy): generation of the column and the one-hour shift.
- `Partition` (partition.dfy): chunk size, chunk starts, slices and the chunk list, with the coverage and chunk-count lemmas.
- `Benchmark` (benchmark.dfy): the two passes, their equivalence, and the whole script.

Four behaviours of the code differ from what a reader might expect, and the model keeps them:

- A remainder is not folded into the last chunk, so the last chunk is never longer than the others. It forms its own shorter trailing chunk (line 40).
- The number of chunks is `ceil(n / (n // k))`. That is at least `k`, and exactly `k` only when `k` divides `n`. It can be much more than `k + 1`. For example, `n = 10, k = 6` gives chunk size 1 and ten chunks.
- The chunked pass reads the output of the sequential pass (lines 26 and 43). Each timestamp therefore ends two hours after its generated value.
- The chunked pass has no empty-result case. A column shorter than the worker count, the empty column included, gives chunk size 0, and `range()` rejects a zero step (lines 39-40).

## Model

| member | source | states |
|---|---|---|
| Dates.GenerateDates | multi_processing.py:8-14 | the loop yields exactly `count` timestamps; element `i` is `start + (i+1)*60` minutes, so the first is one step after the start and not the start itself; consecutive elements differ by exactly 60 minutes |
| Dates.AddHour | multi_processing.py:21-22 | `add_hour` returns its input shifted by exactly one hour (60 minutes) |
| Benchmark.ApplyAddHour | multi_processing.py:21-26 | the sequential apply keeps length and order, and each output element is its input plus exactly one hour |
| Sequences.Map | multi_processing.py:42-43 | the ordered map keeps length, and output `i` is the function applied to input `i`, so results follow input order and not completion order |
| Sequences.Flatten | multi_processing.py:43 | the in-order concatenation is as long as all pieces together and begins with the first piece; with `FlattenAppend` and `Partition.FlattenChunks` it fixes the whole result |
| Sequences.FlattenAppend | multi_processing.py:43 | concatenating two runs of pieces equals concatenating each run and joining the two results |
| Partition.ChunkSize | multi_processing.py:39 | the chunk size is the floor of `n / k` (`size*k <= n < (size+1)*k`), and it is zero exactly when `n < k` |
| Partition.Steps | multi_processing.py:40 | `range(lo, hi, step)` with a positive step is empty iff `hi <= lo`, starts at `lo`, stays within `[lo, hi)`, every value but the last lies more than one step below `hi`, and the last lies within one step of `hi` |
| Partition.Range | multi_processing.py:40 | `range()` fails exactly when the step is zero; otherwise every value lies in `[lo, hi)`, and the range is empty iff `hi <= lo` |
| Partition.Slice | multi_processing.py:40 | a slice starting at `i` has length `min(size, n - i)`, and its element `o` is column element `i + o` (the upper bound is clamped) |
| Partition.Chunks | multi_processing.py:40 | there is one chunk per start in `range(0, n, size)`; every chunk is non-empty and at most `size` long, and every chunk but the last is exactly `size` long |
| Partition.Split | multi_processing.py:38-40 | splitting fails exactly when the column is shorter than the worker count (including the empty column); otherwise every chunk is non-empty and at most `n // k` long |
| Partition.StepsClosedForm | multi_processing.py:40 | the `j`-th chunk start is `lo + j*step` |
| Partition.StepsNext | multi_processing.py:40 | consecutive chunk starts are exactly one chunk size apart |
| Partition.StepsSpread | multi_processing.py:40 | chunk starts strictly increase, at least one step apart |
| Partition.StepsLocate | multi_processing.py:40 | every point of `[lo, hi)` lies less than one step after some start |
| Partition.ChunkAt | multi_processing.py:40 | chunk `j` starts at `j * size`, inside the column, and is `s[j*size .. min(j*size + size, n)]` |
| Partition.ChunkBetween | multi_processing.py:40-43 | chunk `j` spans exactly the column between two consecutive chunk boundaries |
| Partition.FlattenChunksPrefix | multi_processing.py:40-43 | the first `j` chunks, concatenated, equal the column up to the `j`-th chunk start |
| Partition.FlattenChunks | multi_processing.py:40-43 | concatenating the chunks in order gives back the column exactly |
| Partition.ChunkContaining | multi_processing.py:40 | every position of the column lies in some chunk, and the chunk holds the column's element at that offset (no gaps) |
| Partition.ChunkUnique | multi_processing.py:40 | no position lies in two chunks (no overlaps) |
| Partition.ChunkCountBounds | multi_processing.py:39-40 | for `m` chunks of a non-empty column, `(m-1)*size < n <= m*size` |
| Partition.ChunkCountCeil | multi_processing.py:39-40 | the number of chunks is `n / size` rounded up |
| Partition.BlocksVersusWorkers | multi_processing.py:39-40 | if `m` blocks of size `n // k` just cover `n`, then `m >= k`, and `m == k` exactly when `k` divides `n` |
| Partition.ChunkCount | multi_processing.py:39-40 | with `1 <= k <= n` there are at least `k` chunks, and exactly `k` iff `k` divides `n` |
| Partition.SingleWorker | multi_processing.py:38-40 | with one worker the whole column is the single chunk |
| Partition.TenOverThree | multi_processing.py:39-40 | ten elements over three workers give four chunks `[0,3)`, `[3,6)`, `[6,9)`, `[9,10)` |
| Benchmark.ProcessChunk | multi_processing.py:34-35 | the worker keeps its chunk's length, and element `i` of its result is `add_hour` of element `i` of the chunk |
| Benchmark.ChunkedApply | multi_processing.py:34-43 | the chunked pass fails exactly when the column is shorter than the worker count; otherwise its result has the column's length |
| Benchmark.MapOverChunks | multi_processing.py:34-43 | processing chunk by chunk and concatenating in chunk order equals shifting the concatenated chunks |
| Benchmark.ChunkedEqualsSequential | multi_processing.py:34-43 | for every column and every worker count `1 <= k <= n`, the chunked pass equals the sequential apply element for element |
| Benchmark.RunBenchmark | multi_processing.py:8-43 | after the sequential pass element `i` is `start + (i+1)*60 + 60`; the chunked pass fails iff `count < k`, and otherwise element `i` of its output is `start + (i+1)*60 + 120` |
| Benchmark.RunScript | multi_processing.py:8-43 | with the script's constants the column has two million entries; the chunked pass succeeds iff `k <= 2000000`, and then element `i` is minute `(i+3)*60`, the first one being 1993-12-09 03:00 |

## Left out

- Wall-clock timing with `time.time()` and the printed output, including the shape print on line 18. These are I/O and have no effect on the column.
- Process spawning in `mp.Pool`. The pool is modelled as a sequential map that keeps input order. Worker crashes and hangs are not modelled.
- `mp.cpu_count()` is the parameter `k`. The model assumes `k >= 1`, which `cpu_count` always returns when it returns at all.
- pandas DataFrame and Series internals. Each chunk keeps its original index labels, and `pd.concat` keeps them. Assigning the result back therefore lines up position for position. The model uses plain sequences and positions.
- Calendar arithmetic of `datetime` and the range of pandas' `datetime64[ns]` timestamps. Timestamps are unbounded integer minutes. pandas' range ends on 2262-04-11, and the script's column ends around 2222, so the script itself never leaves it. `Benchmark.RunBenchmark` and `Dates.GenerateDates` are general over `start` and `count` and ignore that limit: a start or count that would pass 2262-04-11, where pandas raises an out-of-bounds error, is not modelled.
- `azure_upload.py`, `get_logs.py` and `app/app.py`. These are wrappers over the Azure SDK, the Azure CLI, zip extraction and a one-route Flask app, with no logic of their own.
