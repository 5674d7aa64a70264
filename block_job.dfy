/** The unit of work of the threaded renderer: a block of image rows, and
    what a worker records for it (a linear pixel index and a colour per
    pixel, in row-major order). The colour type `C` is opaque; `shade(i, j)`
    stands for the colour the camera produces for column `i` of row `j`. */
module BlockJobs {
  import Arith

  /** Rows `[rowStart, rowEnd)` of an image `colSize` pixels wide, with the
      pixel indices and colours recorded so far. */
  datatype BlockJob<C> = BlockJob(
    rowStart: int,
    rowEnd: int,
    colSize: int,
    indices: seq<int>,
    colors: seq<C>)
  {
    /** The worker loop's test for "there is a job to render". */
    predicate IsValid() {
      rowStart < rowEnd
    }
  }

  /** The job a worker holds when the queue is empty: a default-constructed
      `BlockJob` (the C++ leaves `col_size` indeterminate; it is never read,
      and it is 0 here). */
  function DefaultJob<C>(): (job: BlockJob<C>)
    ensures !job.IsValid()
    ensures job.rowStart == job.rowEnd == 0
    ensures job.indices == [] && job.colors == []
  {
    BlockJob(0, 0, 0, [], [])
  }

  /** How many times the column loop `for (i = 0; i < col_size; ++i)` runs. */
  function Cols(w: int): nat {
    if w > 0 then w else 0
  }

  /** How many pixels the rows `[rs, re)` of a `w`-wide image hold. */
  function PixelCount(rs: int, re: int, w: int): nat {
    if rs < re then (re - rs) * Cols(w) else 0
  }

  /** The first `n` linear indices `j * w + i` of row `j`. */
  function RowIndices(j: int, n: nat, w: int): seq<int> {
    seq(n, i => j * w + i)
  }

  /** The indices `render` records for rows `[rs, re)`, row after row. */
  function BlockIndices(rs: int, re: int, w: int): seq<int>
    decreases re - rs
  {
    if re <= rs then [] else BlockIndices(rs, re - 1, w) + RowIndices(re - 1, Cols(w), w)
  }

  /** The colours of the first `n` pixels of row `j`. */
  function RowColors<C>(j: int, n: nat, shade: (int, int) -> C): seq<C> {
    seq(n, i => shade(i, j))
  }

  /** The colours `render` records for rows `[rs, re)`, row after row. */
  function BlockColors<C>(rs: int, re: int, w: int, shade: (int, int) -> C): seq<C>
    decreases re - rs
  {
    if re <= rs then [] else BlockColors(rs, re - 1, w, shade) + RowColors(re - 1, Cols(w), shade)
  }

  /** The job as `render` leaves it: its own entries followed by one index
      and one colour per pixel of its rows. */
  function Rendered<C>(job: BlockJob<C>, shade: (int, int) -> C): BlockJob<C> {
    job.(indices := job.indices + BlockIndices(job.rowStart, job.rowEnd, job.colSize),
         colors := job.colors + BlockColors(job.rowStart, job.rowEnd, job.colSize, shade))
  }

  /** Every job of `jobs`, rendered, in the same order. */
  function RenderAll<C>(jobs: seq<BlockJob<C>>, shade: (int, int) -> C): seq<BlockJob<C>> {
    seq(|jobs|, k requires 0 <= k < |jobs| => Rendered(jobs[k], shade))
  }

  /** A block records exactly one index and one colour per pixel of its rows. */
  lemma {:induction false} BlockSize<C>(rs: int, re: int, w: int, shade: (int, int) -> C)
    ensures |BlockIndices(rs, re, w)| == PixelCount(rs, re, w)
    ensures |BlockColors(rs, re, w, shade)| == PixelCount(rs, re, w)
    decreases re - rs
  {
    if rs < re {
      BlockSize(rs, re - 1, w, shade);
      assert (re - rs) * Cols(w) == (re - 1 - rs) * Cols(w) + Cols(w);
    }
  }

  /** The `k`-th recorded index is `rs * w + k`: the indices of a block are
      consecutive, starting at the first pixel of its first row. */
  lemma {:induction false} BlockIndexAt(rs: int, re: int, w: int, k: int)
    requires 0 <= k < |BlockIndices(rs, re, w)|
    ensures BlockIndices(rs, re, w)[k] == rs * w + k
    decreases re - rs
  {
    var prefix := BlockIndices(rs, re - 1, w);
    if k < |prefix| {
      BlockIndexAt(rs, re - 1, w, k);
    } else {
      BlockSize(rs, re - 1, w, (i: int, j: int) => 0);
      var i := k - |prefix|;
      assert BlockIndices(rs, re, w)[k] == (re - 1) * w + i;
      assert |prefix| == (re - 1 - rs) * w;
      assert (re - 1) * w == rs * w + (re - 1 - rs) * w;
    }
  }

  /** The indices a block records are strictly increasing and lie in
      `[rs * w, re * w)`; there are as many colours as indices. */
  lemma BlockIndicesOrdered<C>(rs: int, re: int, w: int, shade: (int, int) -> C)
    ensures |BlockIndices(rs, re, w)| == |BlockColors(rs, re, w, shade)|
    ensures forall k1, k2 :: 0 <= k1 < k2 < |BlockIndices(rs, re, w)| ==>
      BlockIndices(rs, re, w)[k1] < BlockIndices(rs, re, w)[k2]
    ensures forall k :: 0 <= k < |BlockIndices(rs, re, w)| ==>
      rs * w <= BlockIndices(rs, re, w)[k] < re * w
  {
    var idx := BlockIndices(rs, re, w);
    BlockSize(rs, re, w, shade);
    forall k | 0 <= k < |idx|
      ensures idx[k] == rs * w + k
      ensures rs * w <= idx[k] < re * w
    {
      BlockIndexAt(rs, re, w, k);
      assert rs < re && w > 0;
      assert rs * w + (re - rs) * w == re * w;
    }
  }

  /** An index `r * w + c` (with `c` a column of the image) recorded by a
      block belongs to a row of that block and carries the colour of pixel
      `(c, r)`. */
  lemma {:induction false} RenderedPixelAt<C>(rs: int, re: int, w: int, shade: (int, int) -> C,
                                               k: int, r: int, c: int)
    requires 0 <= c < w
    requires 0 <= k < |BlockIndices(rs, re, w)|
    requires BlockIndices(rs, re, w)[k] == r * w + c
    ensures |BlockColors(rs, re, w, shade)| == |BlockIndices(rs, re, w)|
    ensures rs <= r < re
    ensures BlockColors(rs, re, w, shade)[k] == shade(c, r)
    decreases re - rs
  {
    BlockSize(rs, re, w, shade);
    BlockSize(rs, re - 1, w, shade);
    var prefix := BlockIndices(rs, re - 1, w);
    if k < |prefix| {
      RenderedPixelAt(rs, re - 1, w, shade, k, r, c);
    } else {
      var i := k - |prefix|;
      assert BlockIndices(rs, re, w)[k] == (re - 1) * w + i;
      Arith.RowColUnique(r, c, re - 1, i, w);
    }
  }

  /** Every pixel `(c, r)` of a block's rows is recorded, at position
      `(r - rs) * w + c`. */
  lemma RenderedPixelFound(rs: int, re: int, w: int, r: int, c: int)
    requires rs <= r < re && 0 <= c < w
    ensures 0 <= (r - rs) * w + c < |BlockIndices(rs, re, w)|
    ensures BlockIndices(rs, re, w)[(r - rs) * w + c] == r * w + c
  {
    BlockSize(rs, re, w, (i: int, j: int) => 0);
    var k := (r - rs) * w + c;
    Arith.MulMono(0, r - rs, w);
    Arith.MulMono(r - rs + 1, re - rs, w);
    BlockIndexAt(rs, re, w, k);
    assert rs * w + (r - rs) * w == r * w;
  }

  /** Rendering keeps the job's rows and width, keeps what it had recorded
      before as a prefix, and adds as many colours as indices. */
  lemma RenderedShape<C>(job: BlockJob<C>, shade: (int, int) -> C)
    requires |job.indices| == |job.colors|
    ensures var done := Rendered(job, shade);
      done.rowStart == job.rowStart && done.rowEnd == job.rowEnd && done.colSize == job.colSize
      && done.indices[..|job.indices|] == job.indices
      && done.colors[..|job.colors|] == job.colors
      && |done.indices| == |done.colors| == |job.indices| + PixelCount(job.rowStart, job.rowEnd, job.colSize)
  {
    BlockSize(job.rowStart, job.rowEnd, job.colSize, shade);
    var done := Rendered(job, shade);
    assert done.indices[..|job.indices|] == job.indices;
    assert done.colors[..|job.colors|] == job.colors;
  }
}
