# Row-block scheduling of the threaded ray tracer, in Dafny

This project models the integer bookkeeping of the ray tracer's threaded
renderer (`src/threadrender.h`). That bookkeeping has four parts:

- **Job generation.** `imagerender` cuts the image rows into `BlockJob`s of
  `nRowsPerJob = 200` rows. There are `nJobs = image_height / 200` of them.
  The block numbered `nThreads - 1` is widened by
  `leftOver = image_height % nThreads` rows. The jobs go onto a FIFO queue.
- **Rendering a block.** `render` walks the block's rows and columns in
  row-major order. For each pixel it records the linear index
  `j * col_size + i` and a colour. It then appends the filled block to the
  shared list of finished blocks.
- **The worker loop.** `ThreadJobLoop` pops jobs until it meets an invalid
  one (`row_start >= row_end`). An empty queue hands out a default job
  `(0, 0)`, and that job is invalid.
- **The merge.** A zero-filled buffer of `pixelcount` entries receives every
  finished block's colours at the indices the block recorded.

The colour is an opaque type `C`. The colour of pixel `(i, j)` (column `i`,
row `j`) is a parameter function `shade(i, j)`. The zero colour that
`memset` writes is a parameter `black`. The workers run one after another:
the `nThreads - 1` spawned workers first, then the calling thread.

Modules:

- `Arith`: two facts about multiplication.
- `BlockJobs`: the job record and what `render` records for a block.
- `Partition`: the row ranges of the generated jobs, and the exact partition
  that was evidently intended.
- `Merge`: the scatter of blocks into the buffer, and the array loop that
  performs it.
- `ThreadRender`: the class `JobBoard`, which holds the shared queue and
  the shared finished list. This module also has the nested render loops,
  the whole `imagerender` and the pixel-level theorems.

What the model proves about the partition:

- The generated rows cover exactly `[0, CoverageEnd)`. `CoverageEnd` never
  exceeds `image_height`, and it can fall short of it.
- A block that is not the widened one ends where the next block begins.
- The widened block overlaps each later block that starts less than
  `image_height % nThreads` rows after the widened block's nominal end. It
  overlaps no other block.
- In the final image, pixel `(c, r)` holds `shade(c, r)` when
  `r < CoverageEnd`, and holds `black` otherwise.

The design intent is an exact partition of `[0, image_height)`. The code
does not produce one. The model follows the code, and the discrepancy is
recorded under Findings.

`cam.pixelcount` is not defined in the camera source available here
(`src/camera.h`). The model takes it as an input `pixelCount`. The input
must be at least `image_width * image_height`, because the output loop at
`src/threadrender.h:160` reads that many entries.

## Model

| member | source | states |
|---|---|---|
| `BlockJobs.DefaultJob` | src/threadrender.h:28-34 | A default-constructed job has `row_start == row_end == 0`, so it is invalid, and it has no recorded pixels |
| `BlockJobs.BlockSize` | src/threadrender.h:39-57 | A block records exactly `(row_end - row_start) * col_size` indices and as many colours (none when either factor is not positive) |
| `BlockJobs.BlockIndexAt` | src/threadrender.h:39-56 | The `k`-th recorded index is `row_start * col_size + k`, so the indices are consecutive and start at the block's first pixel |
| `BlockJobs.BlockIndicesOrdered` | src/threadrender.h:39-57 | The recorded indices are strictly increasing and lie in `[row_start * col_size, row_end * col_size)`, and there are as many colours as indices |
| `BlockJobs.RenderedPixelAt` | src/threadrender.h:39-57 | An index `r * w + c` with `0 <= c < w` that a block records belongs to a row of that block and carries the colour of pixel `(c, r)` |
| `BlockJobs.RenderedPixelFound` | src/threadrender.h:39-56 | Every pixel `(c, r)` of the block's rows is recorded, at position `(r - row_start) * w + c` |
| `BlockJobs.RenderedShape` | src/threadrender.h:36-61 | Rendering keeps the job's rows and width, keeps earlier entries as a prefix, and leaves equally many indices and colours |
| `Partition.BlocksWellFormed` | src/threadrender.h:109-130 | Generation yields `image_height / 200` valid jobs in increasing row order, each `image_width` wide with nothing recorded. Job `i` starts at `200 * i` and ends 200 rows later, plus `image_height % nThreads` when `i == nThreads - 1` |
| `Partition.Adjacent` | src/threadrender.h:119-126 | Block `i` ends where block `i + 1` starts if and only if `i` is not the widened block or the left-over is 0 |
| `Partition.WidenedBlock` | src/threadrender.h:110-126 | The widened block ends `image_height % nThreads` rows after the next block's start, and never past `image_height` |
| `Partition.BlocksWithinImage` | src/threadrender.h:109-126 | Every generated block is non-empty and lies within `[0, image_height)` |
| `Partition.OverlapIff` | src/threadrender.h:119-126 | Two distinct blocks share a row if and only if the first is the widened block and the second starts fewer than `image_height % nThreads` rows after the widened block's nominal end. All other pairs are disjoint |
| `Partition.CoveredIff` | src/threadrender.h:109-130 | A row lies in some generated block if and only if it is in `[0, CoverageEnd)`, and `CoverageEnd <= image_height` |
| `Partition.LastRowUncovered` | src/threadrender.h:110-126 | When `image_height` is not a multiple of 200 and `nThreads > nJobs`, the last image row belongs to no job |
| `Partition.UncoveredExample` | src/threadrender.h:110-126 | For `image_height = 450` on 8 threads, rows 400 to 449 belong to no job |
| `Partition.ExactBlocksPartition` | src/threadrender.h:119-130 | The corrected partition: non-empty blocks in `[0, image_height)`, each ending where the next begins, ordered and non-overlapping, covering every image row |
| `Merge.Scatter` | src/threadrender.h:150-155 | Writing the colours of one block into the buffer keeps the buffer's length |
| `Merge.MergeAll` | src/threadrender.h:148-156 | Merging every block keeps the buffer's length |
| `Merge.ScatterUntouched` | src/threadrender.h:150-155 | A position that no index of the block names keeps its old value |
| `Merge.ScatterLast` | src/threadrender.h:150-155 | A position holds the colour of the last entry of the block that names it |
| `Merge.ScatterUniform` | src/threadrender.h:150-155 | A position named at least once, where every naming entry carries colour `v`, ends up `v` |
| `Merge.MergeUntouched` | src/threadrender.h:103-105 | After the merge, a position that no block names keeps its initial (zero) value |
| `Merge.MergeLast` | src/threadrender.h:148-156 | After the merge, a position holds the colour of the last block, and within that block the last entry, that names it |
| `Merge.MergeUniform` | src/threadrender.h:148-156 | After the merge, a position named at least once, where every naming entry carries colour `v`, holds `v` |
| `Merge.Merge` | src/threadrender.h:148-156 | The in-place merge loop leaves the buffer equal to `MergeAll` of its old contents and the blocks |
| `ThreadRender.LeadingValid` | src/threadrender.h:72-93 | Counts the valid jobs at the front of the queue: all jobs before that count are valid, and the job at that position, if any, is invalid |
| `ThreadRender.DrainAllValid` | src/threadrender.h:72-93 | On a queue of valid jobs a worker renders every job and leaves the queue empty |
| `ThreadRender.RecordRow` | src/threadrender.h:41-58 | The column loop appends `j * w + i` and the colour of `(i, j)` for every `i < w`, left to right |
| `ThreadRender.RenderBlock` | src/threadrender.h:39-59 | The row and column loops leave the job with its recorded indices and colours extended by the block's pixels, in row-major order |
| `ThreadRender.JobBoard.constructor` | src/threadrender.h:115-116 | The queue and the finished list start empty |
| `ThreadRender.JobBoard.Push` | src/threadrender.h:129 | A job goes to the back of the queue, and the finished list is unchanged |
| `ThreadRender.JobBoard.EnqueueBlocks` | src/threadrender.h:119-130 | The generation loop appends exactly `Blocks(image_height, image_width, nThreads)` to the queue, in order |
| `ThreadRender.JobBoard.Pop` | src/threadrender.h:75-83 | Takes the front job and removes it. On an empty queue it yields the default job and the queue stays empty |
| `ThreadRender.JobBoard.Render` | src/threadrender.h:36-62 | Appends exactly one block, the rendered job, to the finished list. Earlier entries and the queue are unchanged |
| `ThreadRender.JobBoard.ThreadJobLoop` | src/threadrender.h:64-100 | Renders the leading valid jobs in queue order, then stops after popping the first invalid job or the empty queue's default job. The queue left is what follows that job |
| `ThreadRender.JobBoard.RunWorkers` | src/threadrender.h:132-146 | Run one after another on a queue of valid jobs, the workers empty the queue and append every job, rendered, in queue order |
| `ThreadRender.RenderedPlaceable` | src/threadrender.h:148-156 | Rendered jobs whose rows fit the buffer produce only in-range indices, with an index for every colour |
| `ThreadRender.BlocksWithinBuffer` | src/threadrender.h:103-130 | Every generated job starts at row 0 or later and has its pixel indices below `pixelcount` when `pixelcount >= image_width * image_height` |
| `ThreadRender.ExactWithinBuffer` | src/threadrender.h:103-130 | The exact partition fits a buffer of at least `image_width * image_height` entries |
| `ThreadRender.ImageRender` | src/threadrender.h:102-156 | Returns a buffer of `pixelcount` entries equal to the merge of all rendered generated jobs into a zero buffer. On the way, the number of finished blocks reaches `nJobs`, the value the calling thread waits for |
| `ThreadRender.PixelOfMerge` | src/threadrender.h:148-156 | After rendering and merging, pixel `(c, r)` holds `shade(c, r)` if some job covers row `r`, and its zero value otherwise |
| `ThreadRender.ImagePixel` | src/threadrender.h:102-156 | Pixel `(c, r)` of the produced image holds `shade(c, r)` exactly when `r < CoverageEnd`, and stays zero otherwise |
| `ThreadRender.ExactImagePixel` | src/threadrender.h:102-156 | With the exact partition, every pixel of `[0, image_height)` holds its colour, and nothing beyond it is written |

## Left out

- Thread creation, the mutex, the condition variable and `join` (src/threadrender.h:113-146). The workers run one after another. Interleavings of pops and appends are not modelled, so the finished list is in queue order. The merge result does not depend on that order except on rows that two overlapping blocks both cover.
- `std::thread::hardware_concurrency()` (src/threadrender.h:108). `nThreads` is an input with `nThreads >= 1`, because `% nThreads` is undefined for 0.
- The colour computation in `render`: the sampling loop, the averaging, the `sqrt` gamma and the clamp to `[0, 0.999]` (src/threadrender.h:43-53). These are floating point and random. The colour of a pixel is the parameter `shade(i, j)`, so both renders of a row that two blocks cover give the same colour here.
- The PPM output and the `255.99f` quantisation (src/threadrender.h:158-170). This is I/O on floats.
- Camera set-up, ray generation, sphere intersection, materials and the random number generator (`src/camera.h`, `src/sphere.h`, `src/material.h`, `src/rtweekend.h`). These are floating-point geometry and randomness. `image_height >= 0` and `image_width` are taken as given integers.
- `BlockJobs.DefaultJob`: the C++ leaves `col_size` of a default job indeterminate. The model sets it to 0. It is never read, because the job is invalid.
- 32-bit arithmetic: `i * nRowsPerJob`, `j * col_size + i` (computed as `unsigned int`) and the buffer size are unbounded integers here. Wrap-around for very large images is not modelled.
- `scene`, `hittable_list.h`, `vec3.h`, `ray.h`, `interval.h` and `color.h` are not part of this model.

## Findings

| source | as written | input that shows it | evidently intended | confidence | as-written member | corrected member |
|---|---|---|---|---|---|---|
| src/threadrender.h:110-126 | `nJobs = image_height / 200` blocks of 200 rows. The widening uses `image_height % nThreads` and applies only to block `nThreads - 1`. Rows from `CoverageEnd` up to `image_height` get no job, and the merge leaves them zero (black) | `image_height = 450` on 8 threads: rows 400 to 449 are never rendered. Any `image_height` below 200 gives no job at all | Blocks of 200 rows, `ceil(image_height / 200)` of them, with the last block ending at `image_height`. This covers every row exactly once | high; not executed | `Partition.UncoveredExample` | `ThreadRender.ExactImagePixel` |
