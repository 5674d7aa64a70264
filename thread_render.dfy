/** The threaded renderer's bookkeeping: a worker records the index and
    colour of every pixel of a block, workers drain a shared FIFO queue of
    blocks into a shared list of finished blocks, and `imagerender` builds
    the queue, runs the workers and merges their blocks into the image.
    The workers run one after another here. */
module ThreadRender {
  import opened BlockJobs
  import opened Partition
  import opened Merge
  import Arith

  /** How many jobs at the front of `q` are valid: a worker renders exactly
      these before it meets an invalid job or the end of the queue. */
  function LeadingValid<C>(q: seq<BlockJob<C>>): (n: nat)
    ensures n <= |q|
    ensures forall k :: 0 <= k < n ==> q[k].IsValid()
    ensures n < |q| ==> !q[n].IsValid()
  {
    if q == [] || !q[0].IsValid() then 0 else 1 + LeadingValid(q[1..])
  }

  /** The queue a worker leaves behind: whatever follows the invalid job it
      popped, or nothing once it popped the queue empty. */
  function Drained<C>(q: seq<BlockJob<C>>): seq<BlockJob<C>> {
    var n := LeadingValid(q);
    if n < |q| then q[n + 1..] else []
  }

  /** A queue of valid jobs is drained completely, every job rendered. */
  lemma DrainAllValid<C>(q: seq<BlockJob<C>>)
    requires forall k :: 0 <= k < |q| ==> q[k].IsValid()
    ensures LeadingValid(q) == |q| && Drained(q) == [] && q[..LeadingValid(q)] == q
  {
  }

  /** One more column of row `j` extends the row's indices and colours by
      that pixel's. */
  lemma RowStep<C>(j: int, i: nat, w: int, shade: (int, int) -> C)
    ensures RowIndices(j, i + 1, w) == RowIndices(j, i, w) + [j * w + i]
    ensures RowColors(j, i + 1, shade) == RowColors(j, i, shade) + [shade(i, j)]
  {
  }

  /** One more row extends a block's indices and colours by that row's. */
  lemma BlockStep<C>(rs: int, j: int, w: int, shade: (int, int) -> C)
    requires rs <= j
    ensures BlockIndices(rs, j + 1, w) == BlockIndices(rs, j, w) + RowIndices(j, Cols(w), w)
    ensures BlockColors(rs, j + 1, w, shade) == BlockColors(rs, j, w, shade) + RowColors(j, Cols(w), shade)
  {
  }

  /** `render`'s column loop for row `j`: appends the index `j * w + i` and
      the colour of pixel `(i, j)` for every column `i < w`, left to right. */
  method RecordRow<C>(j: int, w: int, shade: (int, int) -> C, indices: seq<int>, colors: seq<C>)
    returns (indices': seq<int>, colors': seq<C>)
    ensures indices' == indices + RowIndices(j, Cols(w), w)
    ensures colors' == colors + RowColors(j, Cols(w), shade)
  {
    indices', colors' := indices, colors;
    var i := 0;
    while i < w
      invariant 0 <= i <= Cols(w)
      invariant indices' == indices + RowIndices(j, i, w)
      invariant colors' == colors + RowColors(j, i, shade)
    {
      var index := j * w + i;
      RowStep(j, i, w, shade);
      indices' := indices' + [index];
      colors' := colors' + [shade(i, j)];
      i := i + 1;
    }
  }

  /** `render`'s loops: for every row `j` of the block and every column `i`
      below `col_size`, record the index `j * col_size + i` and the colour
      of pixel `(i, j)`, in row-major order. */
  method RenderBlock<C>(job: BlockJob<C>, shade: (int, int) -> C) returns (done: BlockJob<C>)
    ensures done == Rendered(job, shade)
  {
    var rs, re, w := job.rowStart, job.rowEnd, job.colSize;
    var indices, colors := job.indices, job.colors;
    var j := rs;
    while j < re
      invariant rs <= j && (j <= re || j == rs)
      invariant indices == job.indices + BlockIndices(rs, j, w)
      invariant colors == job.colors + BlockColors(rs, j, w, shade)
    {
      indices, colors := RecordRow(j, w, shade, indices, colors);
      BlockStep(rs, j, w, shade);
      assert indices == job.indices + (BlockIndices(rs, j, w) + RowIndices(j, Cols(w), w));
      assert colors == job.colors + (BlockColors(rs, j, w, shade) + RowColors(j, Cols(w), shade));
      j := j + 1;
    }
    assert BlockIndices(rs, j, w) == BlockIndices(rs, re, w);
    assert BlockColors(rs, j, w, shade) == BlockColors(rs, re, w, shade);
    done := job.(indices := indices, colors := colors);
  }

  /** The state the workers share: the job queue (`jobQ`, front first) and
      the list of finished blocks (`imageblocks`), both guarded by one mutex
      in the source. */
  class JobBoard<C> {
    var queue: seq<BlockJob<C>>
    var finished: seq<BlockJob<C>>

    constructor ()
      ensures queue == [] && finished == []
    {
      queue := [];
      finished := [];
    }

    /** `jobqueue.push(job)`. */
    method Push(job: BlockJob<C>)
      modifies this
      ensures queue == old(queue) + [job] && finished == old(finished)
    {
      queue := queue + [job];
    }

    /** The generation loop of `imagerender`: pushes block `i` for every
        `i < image_height / 200`, in order. */
    method EnqueueBlocks(imageHeight: nat, imageWidth: int, nThreads: int)
      requires nThreads >= 1
      modifies this
      ensures queue == old(queue) + Blocks(imageHeight, imageWidth, nThreads)
      ensures finished == old(finished)
    {
      var nRowsPerJob := RowsPerJob;
      var nJobs := imageHeight / nRowsPerJob;
      var leftOver := imageHeight % nThreads;
      for i := 0 to nJobs
        invariant queue == old(queue) + Blocks(imageHeight, imageWidth, nThreads)[..i]
        invariant finished == old(finished)
      {
        var rowStart := i * nRowsPerJob;
        var rowEnd := rowStart + nRowsPerJob;
        if i == nThreads - 1 {
          rowEnd := rowStart + nRowsPerJob + leftOver;
        }
        var job := BlockJob(rowStart, rowEnd, imageWidth, [], []);
        assert Blocks(imageHeight, imageWidth, nThreads)[..i + 1] == Blocks(imageHeight, imageWidth, nThreads)[..i] + [job];
        Push(job);
      }
      assert Blocks<C>(imageHeight, imageWidth, nThreads)[..nJobs] == Blocks<C>(imageHeight, imageWidth, nThreads);
    }

    /** The locked section of the worker loop: take the front job, or a
        default job when the queue is empty. */
    method Pop() returns (job: BlockJob<C>)
      modifies this
      ensures old(queue) == [] ==> job == DefaultJob() && queue == []
      ensures old(queue) != [] ==> job == old(queue)[0] && queue == old(queue)[1..]
      ensures finished == old(finished)
    {
      job := DefaultJob();
      if queue != [] {
        job := queue[0];
        queue := queue[1..];
      }
    }

    /** `render`: records the job's pixels and appends the filled block to
        the finished list, leaving the earlier entries as they were. */
    method Render(job: BlockJob<C>, shade: (int, int) -> C)
      modifies this
      ensures finished == old(finished) + [Rendered(job, shade)]
      ensures queue == old(queue)
    {
      var done := RenderBlock(job, shade);
      finished := finished + [done];
    }

    /** `ThreadJobLoop`: pops and renders jobs while they are valid; stops at
        the first invalid one, which an empty queue supplies as the default
        job. */
    method ThreadJobLoop(shade: (int, int) -> C)
      modifies this
      ensures queue == Drained(old(queue))
      ensures finished == old(finished) + RenderAll(old(queue)[..LeadingValid(old(queue))], shade)
    {
      ghost var q, f := queue, finished;
      ghost var taken := 0;
      var hasWork := true;
      while hasWork
        invariant taken <= LeadingValid(q)
        invariant hasWork ==> queue == q[taken..]
        invariant !hasWork ==> queue == Drained(q) && taken == LeadingValid(q)
        invariant finished == f + RenderAll(q[..taken], shade)
        decreases |q| - taken + (if hasWork then 1 else 0)
      {
        var job := Pop();
        if job.rowStart < job.rowEnd {
          Render(job, shade);
          assert RenderAll(q[..taken + 1], shade) == RenderAll(q[..taken], shade) + [Rendered(q[taken], shade)];
          taken := taken + 1;
        } else {
          hasWork := false;
        }
      }
    }

    /** The worker pool of `imagerender`, run one worker after another: the
        `nThreads - 1` spawned workers, then the calling thread. On a queue
        of valid jobs the first worker renders them all and the others find
        the queue empty. */
    method RunWorkers(nThreads: int, shade: (int, int) -> C)
      requires nThreads >= 1
      requires forall k :: 0 <= k < |queue| ==> queue[k].IsValid()
      modifies this
      ensures queue == []
      ensures finished == old(finished) + RenderAll(old(queue), shade)
    {
      ghost var q, f := queue, finished;
      DrainAllValid(q);
      for t := 0 to nThreads - 1
        invariant queue == (if t == 0 then q else [])
        invariant finished == f + (if t == 0 then [] else RenderAll(q, shade))
      {
        ThreadJobLoop(shade);
        assert RenderAll(q[..LeadingValid(q)], shade) == RenderAll(q, shade);
      }
      ThreadJobLoop(shade);
      assert RenderAll(q[..LeadingValid(q)], shade) == RenderAll(q, shade);
    }
  }

  /** Jobs as the generation loop makes them: `w` wide, nothing recorded. */
  predicate Unrendered<C>(jobs: seq<BlockJob<C>>, w: int) {
    forall k :: 0 <= k < |jobs| ==> jobs[k].colSize == w && jobs[k].indices == [] && jobs[k].colors == []
  }

  /** Every job's rows start at 0 or later, and every pixel of them has an
      index below `size`. */
  predicate WithinBuffer<C>(jobs: seq<BlockJob<C>>, w: int, size: int) {
    forall k :: 0 <= k < |jobs| ==> 0 <= jobs[k].rowStart <= jobs[k].rowEnd && jobs[k].rowEnd * w <= size
  }

  /** Rendered jobs that fit the buffer can be merged into it. */
  lemma RenderedPlaceable<C>(jobs: seq<BlockJob<C>>, w: int, size: int, shade: (int, int) -> C)
    requires Unrendered(jobs, w) && WithinBuffer(jobs, w, size)
    ensures Placeable(RenderAll(jobs, shade), size)
  {
    var blocks := RenderAll(jobs, shade);
    forall b | 0 <= b < |blocks|
      ensures |blocks[b].colors| <= |blocks[b].indices|
      ensures forall k :: 0 <= k < |blocks[b].colors| ==> 0 <= blocks[b].indices[k] < size
    {
      var job := jobs[b];
      BlockIndicesOrdered(job.rowStart, job.rowEnd, w, shade);
      BlockSize(job.rowStart, job.rowEnd, w, shade);
      if w > 0 {
        Arith.MulMono(0, job.rowStart, w);
      } else {
        assert PixelCount(job.rowStart, job.rowEnd, w) == 0;
      }
    }
  }

  /** Rows ending at or before the last image row have their pixel indices
      inside a buffer of at least `image_height * image_width` entries. */
  lemma RowsWithinBuffer(rowEnd: int, imageHeight: nat, w: int, size: nat)
    requires 0 <= rowEnd <= imageHeight && imageHeight * w <= size
    ensures rowEnd * w <= size
  {
    if w >= 0 {
      Arith.MulMono(rowEnd, imageHeight, w);
    } else {
      Arith.MulMono(0, rowEnd, -w);
      assert rowEnd * -w == -(rowEnd * w);
    }
  }

  /** The generated jobs fit a buffer of at least `image_height * image_width`
      entries. */
  lemma BlocksWithinBuffer<C>(imageHeight: nat, imageWidth: int, nThreads: int, size: nat)
    requires nThreads >= 1
    requires imageHeight * imageWidth <= size
    ensures Unrendered(Blocks<C>(imageHeight, imageWidth, nThreads), imageWidth)
    ensures WithinBuffer(Blocks<C>(imageHeight, imageWidth, nThreads), imageWidth, size)
  {
    var jobs := Blocks<C>(imageHeight, imageWidth, nThreads);
    forall k | 0 <= k < |jobs|
      ensures 0 <= jobs[k].rowStart <= jobs[k].rowEnd && jobs[k].rowEnd * imageWidth <= size
    {
      BlocksWithinImage(imageHeight, nThreads, k);
      assert jobs[k] == BlockAt(k, imageHeight, imageWidth, nThreads);
      RowsWithinBuffer(jobs[k].rowEnd, imageHeight, imageWidth, size);
    }
  }

  /** A buffer of `pixelCount` copies of `black` into which every job, rendered,
      is merged in order. */
  function MergedImage<C>(jobs: seq<BlockJob<C>>, w: int, pixelCount: nat, black: C, shade: (int, int) -> C): seq<C>
    requires Unrendered(jobs, w) && WithinBuffer(jobs, w, pixelCount)
  {
    RenderedPlaceable(jobs, w, pixelCount, shade);
    MergeAll(seq(pixelCount, _ => black), RenderAll(jobs, shade))
  }

  /** The buffer `imagerender` produces: `pixelcount` zero entries, into
      which every generated block, rendered, is merged in queue order. */
  function RenderedImage<C>(imageHeight: nat, imageWidth: int, nThreads: int, pixelCount: nat,
                            black: C, shade: (int, int) -> C): seq<C>
    requires nThreads >= 1
    requires imageHeight * imageWidth <= pixelCount
  {
    BlocksWithinBuffer<C>(imageHeight, imageWidth, nThreads, pixelCount);
    MergedImage(Blocks(imageHeight, imageWidth, nThreads), imageWidth, pixelCount, black, shade)
  }

  /** The exact partition fits a buffer of `image_height * image_width` entries. */
  lemma ExactWithinBuffer<C>(imageHeight: nat, imageWidth: int, size: nat)
    requires imageHeight * imageWidth <= size
    ensures Unrendered(ExactBlocks<C>(imageHeight, imageWidth), imageWidth)
    ensures WithinBuffer(ExactBlocks<C>(imageHeight, imageWidth), imageWidth, size)
  {
    var jobs := ExactBlocks<C>(imageHeight, imageWidth);
    ExactBlocksPartition<C>(imageHeight, imageWidth);
    forall k | 0 <= k < |jobs| ensures jobs[k].rowEnd * imageWidth <= size {
      RowsWithinBuffer(jobs[k].rowEnd, imageHeight, imageWidth, size);
    }
  }

  /** The buffer the renderer would produce with the exact partition. */
  function ExactImage<C>(imageHeight: nat, imageWidth: int, pixelCount: nat, black: C, shade: (int, int) -> C): seq<C>
    requires imageHeight * imageWidth <= pixelCount
  {
    ExactWithinBuffer<C>(imageHeight, imageWidth, pixelCount);
    MergedImage(ExactBlocks(imageHeight, imageWidth), imageWidth, pixelCount, black, shade)
  }

  /** `imagerender` without its output: a zeroed buffer, the job queue, the
      workers (one after another: `nThreads - 1` spawned ones, then the
      calling thread) and the merge. */
  method ImageRender<C>(imageHeight: nat, imageWidth: int, nThreads: int, pixelCount: nat,
                        black: C, shade: (int, int) -> C) returns (image: array<C>)
    requires nThreads >= 1
    requires imageHeight * imageWidth <= pixelCount
    ensures image.Length == pixelCount
    ensures image[..] == RenderedImage(imageHeight, imageWidth, nThreads, pixelCount, black, shade)
  {
    image := new C[pixelCount](_ => black);
    assert image[..] == seq(pixelCount, _ => black);
    var board := new JobBoard<C>();
    board.EnqueueBlocks(imageHeight, imageWidth, nThreads);
    ghost var jobs := Blocks<C>(imageHeight, imageWidth, nThreads);
    BlocksWellFormed<C>(imageHeight, imageWidth, nThreads);
    board.RunWorkers(nThreads, shade);
    // The condition the calling thread waits for: every job is finished.
    assert board.finished == RenderAll(jobs, shade);
    assert board.queue == [] && |board.finished| == JobCount(imageHeight);
    BlocksWithinBuffer<C>(imageHeight, imageWidth, nThreads, pixelCount);
    RenderedPlaceable(jobs, imageWidth, pixelCount, shade);
    Merge.Merge(image, board.finished);
  }

  /** After rendering and merging jobs that fit the buffer, pixel `(c, r)`
      holds its colour when some job covers row `r`, and its initial value
      otherwise. */
  lemma PixelOfMerge<C>(jobs: seq<BlockJob<C>>, w: int, pixelCount: nat, black: C, shade: (int, int) -> C,
                        r: int, c: int)
    requires Unrendered(jobs, w) && WithinBuffer(jobs, w, pixelCount)
    requires 0 <= c < w && 0 <= r * w + c < pixelCount
    ensures MergedImage(jobs, w, pixelCount, black, shade)[r * w + c]
      == if RowCovered(jobs, r) then shade(c, r) else black
  {
    RenderedPlaceable(jobs, w, pixelCount, shade);
    var blocks := RenderAll(jobs, shade);
    var img := seq(pixelCount, _ => black);
    var p := r * w + c;
    forall b, m | Names(blocks, b, m, p)
      ensures blocks[b].colors[m] == shade(c, r)
      ensures jobs[b].rowStart <= r < jobs[b].rowEnd
    {
      RenderedPixelAt(jobs[b].rowStart, jobs[b].rowEnd, w, shade, m, r, c);
    }
    if RowCovered(jobs, r) {
      var k :| 0 <= k < |jobs| && jobs[k].rowStart <= r < jobs[k].rowEnd;
      RenderedPixelFound(jobs[k].rowStart, jobs[k].rowEnd, w, r, c);
      BlockSize(jobs[k].rowStart, jobs[k].rowEnd, w, shade);
      assert Names(blocks, k, (r - jobs[k].rowStart) * w + c, p);
      MergeUniform(img, blocks, p, shade(c, r));
    } else {
      MergeUntouched(img, blocks, p);
    }
  }

  /** Pixel `(c, r)` of the image `imagerender` produces holds its colour
      exactly when `r` is below `CoverageEnd`, and is left zero otherwise. */
  lemma ImagePixel<C>(imageHeight: nat, imageWidth: int, nThreads: int, pixelCount: nat,
                      black: C, shade: (int, int) -> C, r: int, c: int)
    requires nThreads >= 1
    requires imageHeight * imageWidth <= pixelCount
    requires 0 <= c < imageWidth && 0 <= r * imageWidth + c < pixelCount
    ensures RenderedImage(imageHeight, imageWidth, nThreads, pixelCount, black, shade)[r * imageWidth + c]
      == if r < CoverageEnd(imageHeight, nThreads) then shade(c, r) else black
  {
    var jobs := Blocks<C>(imageHeight, imageWidth, nThreads);
    BlocksWithinBuffer<C>(imageHeight, imageWidth, nThreads, pixelCount);
    PixelOfMerge(jobs, imageWidth, pixelCount, black, shade, r, c);
    CoveredIff<C>(imageHeight, imageWidth, nThreads, r);
    if r < 0 {
      Arith.MulMono(r, -1, imageWidth);
    }
  }

  /** With the exact partition in place of the generated blocks, every pixel
      of the image rows holds its colour and nothing past them is written. */
  lemma ExactImagePixel<C>(imageHeight: nat, imageWidth: int, pixelCount: nat,
                           black: C, shade: (int, int) -> C, r: int, c: int)
    requires imageHeight * imageWidth <= pixelCount
    requires 0 <= c < imageWidth && 0 <= r * imageWidth + c < pixelCount
    ensures ExactImage(imageHeight, imageWidth, pixelCount, black, shade)[r * imageWidth + c]
      == if r < imageHeight then shade(c, r) else black
  {
    var jobs := ExactBlocks<C>(imageHeight, imageWidth);
    ExactWithinBuffer<C>(imageHeight, imageWidth, pixelCount);
    ExactBlocksPartition<C>(imageHeight, imageWidth);
    PixelOfMerge(jobs, imageWidth, pixelCount, black, shade, r, c);
    if r < 0 {
      Arith.MulMono(r, -1, imageWidth);
    }
  }
}
