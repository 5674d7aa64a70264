/** How `imagerender` cuts the image rows into jobs: `image_height / 200`
    blocks of 200 rows, the block numbered `nThreads - 1` widened by
    `image_height % nThreads` rows. This module states exactly which row
    ranges that formula produces, where they touch, where they overlap and
    which rows they leave out. */
module Partition {
  import opened BlockJobs
  import Arith

  /** `nRowsPerJob` in the source. */
  const RowsPerJob: int := 200

  /** `nJobs`: the number of blocks pushed on the queue. */
  function JobCount(imageHeight: nat): nat {
    imageHeight / RowsPerJob
  }

  /** `leftOver`: the rows added to the block numbered `nThreads - 1`. */
  function LeftOver(imageHeight: nat, nThreads: int): nat
    requires nThreads >= 1
  {
    imageHeight % nThreads
  }

  /** First row of block `i`. */
  function RowStart(i: int): int {
    i * RowsPerJob
  }

  /** One past the last row of block `i`. */
  function RowEnd(i: int, imageHeight: nat, nThreads: int): int
    requires nThreads >= 1
  {
    if i == nThreads - 1 then RowStart(i) + RowsPerJob + LeftOver(imageHeight, nThreads)
    else RowStart(i) + RowsPerJob
  }

  /** Block `i` as the generation loop builds it, before any pixel is recorded. */
  function BlockAt<C>(i: int, imageHeight: nat, imageWidth: int, nThreads: int): BlockJob<C>
    requires nThreads >= 1
  {
    BlockJob(RowStart(i), RowEnd(i, imageHeight, nThreads), imageWidth, [], [])
  }

  /** The queue contents after the generation loop, front first. */
  function Blocks<C>(imageHeight: nat, imageWidth: int, nThreads: int): seq<BlockJob<C>>
    requires nThreads >= 1
  {
    seq(JobCount(imageHeight), i requires 0 <= i => BlockAt(i, imageHeight, imageWidth, nThreads))
  }

  /** Do rows `[s1, e1)` and `[s2, e2)` share a row? */
  predicate Overlap(s1: int, e1: int, s2: int, e2: int) {
    s1 < e2 && s2 < e1
  }

  /** The generation loop yields `image_height / 200` fresh, valid jobs of
      the image's width, in increasing row order, block `i` starting at row
      `200 * i`. */
  lemma BlocksWellFormed<C>(imageHeight: nat, imageWidth: int, nThreads: int)
    requires nThreads >= 1
    ensures |Blocks<C>(imageHeight, imageWidth, nThreads)| == imageHeight / 200
    ensures forall i :: 0 <= i < |Blocks<C>(imageHeight, imageWidth, nThreads)| ==>
      var b := Blocks<C>(imageHeight, imageWidth, nThreads)[i];
      b.IsValid() && b.colSize == imageWidth && b.indices == [] && b.colors == []
      && b.rowStart == 200 * i
      && b.rowEnd == (if i == nThreads - 1 then 200 * i + 200 + imageHeight % nThreads else 200 * i + 200)
    ensures forall i, i' :: 0 <= i < i' < |Blocks<C>(imageHeight, imageWidth, nThreads)| ==>
      Blocks<C>(imageHeight, imageWidth, nThreads)[i].rowStart < Blocks<C>(imageHeight, imageWidth, nThreads)[i'].rowStart
  {
  }

  /** A block that is not the widened one ends exactly where the next begins. */
  lemma Adjacent(imageHeight: nat, nThreads: int, i: int)
    requires nThreads >= 1
    requires 0 <= i && i + 1 < JobCount(imageHeight)
    ensures RowEnd(i, imageHeight, nThreads) == RowStart(i + 1) <==> (i != nThreads - 1 || LeftOver(imageHeight, nThreads) == 0)
  {
  }

  /** The widened block `nThreads - 1` reaches `image_height % nThreads` rows
      past the start of the next block, and never past the image. */
  lemma WidenedBlock(imageHeight: nat, nThreads: int)
    requires 1 <= nThreads <= JobCount(imageHeight)
    ensures RowEnd(nThreads - 1, imageHeight, nThreads) == RowStart(nThreads) + imageHeight % nThreads
    ensures RowEnd(nThreads - 1, imageHeight, nThreads) <= imageHeight
  {
    var q, l := imageHeight / nThreads, imageHeight % nThreads;
    assert imageHeight == q * nThreads + l;
    assert 200 * JobCount(imageHeight) <= imageHeight;
    Arith.MulMono(nThreads, JobCount(imageHeight), 200);
    if q < 200 {
      Arith.MulMono(q + 1, 200, nThreads);
      assert false;
    }
    Arith.MulMono(200, q, nThreads);
  }

  /** Every block lies within the image rows `[0, image_height)` and is non-empty. */
  lemma BlocksWithinImage(imageHeight: nat, nThreads: int, i: int)
    requires nThreads >= 1
    requires 0 <= i < JobCount(imageHeight)
    ensures 0 <= RowStart(i) < RowEnd(i, imageHeight, nThreads) <= imageHeight
  {
    assert 200 * JobCount(imageHeight) <= imageHeight;
    if i == nThreads - 1 {
      WidenedBlock(imageHeight, nThreads);
    }
  }

  /** Two different blocks share a row exactly when the first is the widened
      block and the second starts less than `image_height % nThreads` rows
      after the widened block's nominal end. In particular, unwidened blocks
      are pairwise disjoint. */
  lemma OverlapIff(imageHeight: nat, nThreads: int, i: int, i': int)
    requires nThreads >= 1
    requires 0 <= i < i' < JobCount(imageHeight)
    ensures Overlap(RowStart(i), RowEnd(i, imageHeight, nThreads), RowStart(i'), RowEnd(i', imageHeight, nThreads))
        <==> i == nThreads - 1 && (i' - nThreads) * RowsPerJob < LeftOver(imageHeight, nThreads)
  {
  }

  /** One past the last row that some block covers: every block ends at or
      before it and the blocks leave no gap below it. */
  function CoverageEnd(imageHeight: nat, nThreads: int): int
    requires nThreads >= 1
  {
    var plain := JobCount(imageHeight) * RowsPerJob;
    if nThreads <= JobCount(imageHeight) && plain < RowEnd(nThreads - 1, imageHeight, nThreads)
    then RowEnd(nThreads - 1, imageHeight, nThreads)
    else plain
  }

  /** Is row `r` inside one of the jobs? */
  predicate RowCovered<C>(jobs: seq<BlockJob<C>>, r: int) {
    exists k :: 0 <= k < |jobs| && jobs[k].rowStart <= r < jobs[k].rowEnd
  }

  /** The rows the generated jobs cover are exactly `[0, CoverageEnd)`, and
      that range ends at or before the last image row. Rows at or beyond
      `200 * (image_height / 200)` are covered only through the widened block. */
  lemma {:induction false} CoveredIff<C>(imageHeight: nat, imageWidth: int, nThreads: int, r: int)
    requires nThreads >= 1
    ensures RowCovered(Blocks<C>(imageHeight, imageWidth, nThreads), r) <==> 0 <= r < CoverageEnd(imageHeight, nThreads)
    ensures CoverageEnd(imageHeight, nThreads) <= imageHeight
  {
    var jobs := Blocks<C>(imageHeight, imageWidth, nThreads);
    var n := JobCount(imageHeight);
    assert 200 * n <= imageHeight;
    if nThreads <= n {
      WidenedBlock(imageHeight, nThreads);
    }
    if 0 <= r < CoverageEnd(imageHeight, nThreads) {
      var k := if r < n * RowsPerJob then r / RowsPerJob else nThreads - 1;
      assert jobs[k].rowStart <= r < jobs[k].rowEnd;
    }
    if RowCovered(jobs, r) {
      var k :| 0 <= k < |jobs| && jobs[k].rowStart <= r < jobs[k].rowEnd;
      assert jobs[k] == BlockAt(k, imageHeight, imageWidth, nThreads);
    }
  }

  /** When `image_height` is not a multiple of 200 and there are more threads
      than jobs, no job covers the last image row: it is never rendered. */
  lemma LastRowUncovered<C>(imageHeight: nat, imageWidth: int, nThreads: int)
    requires nThreads > JobCount(imageHeight)
    requires imageHeight % RowsPerJob != 0
    ensures !RowCovered(Blocks<C>(imageHeight, imageWidth, nThreads), imageHeight - 1)
  {
    CoveredIff<C>(imageHeight, imageWidth, nThreads, imageHeight - 1);
  }

  /** An image 450 rows high rendered on 8 hardware threads: the rows
      `[400, 450)` belong to no job. */
  lemma UncoveredExample<C>(imageWidth: int)
    ensures CoverageEnd(450, 8) == 400
    ensures forall r :: 400 <= r < 450 ==> !RowCovered(Blocks<C>(450, imageWidth, 8), r)
  {
    forall r | 400 <= r < 450
      ensures !RowCovered(Blocks<C>(450, imageWidth, 8), r)
    {
      CoveredIff<C>(450, imageWidth, 8, r);
    }
  }

  /** The partition the row blocks are meant to form: `ceil(h / 200)` blocks
      of 200 rows, the last one shortened to end at the last image row. */
  function ExactBlocks<C>(imageHeight: nat, imageWidth: int): seq<BlockJob<C>> {
    seq((imageHeight + RowsPerJob - 1) / RowsPerJob,
        i requires 0 <= i => BlockJob(RowStart(i), if RowStart(i) + RowsPerJob < imageHeight then RowStart(i) + RowsPerJob else imageHeight,
                           imageWidth, [], []))
  }

  /** The exact partition: non-empty blocks in `[0, image_height)`, each
      ending where the next begins, every image row in exactly one block (the blocks are ordered and
      do not overlap). */
  lemma ExactBlocksPartition<C>(imageHeight: nat, imageWidth: int)
    ensures forall i :: 0 <= i < |ExactBlocks<C>(imageHeight, imageWidth)| ==>
      var b := ExactBlocks<C>(imageHeight, imageWidth)[i];
      0 <= b.rowStart < b.rowEnd <= imageHeight && b.colSize == imageWidth && b.indices == [] && b.colors == []
    ensures forall i :: 0 <= i < |ExactBlocks<C>(imageHeight, imageWidth)| - 1 ==>
      ExactBlocks<C>(imageHeight, imageWidth)[i].rowEnd == ExactBlocks<C>(imageHeight, imageWidth)[i + 1].rowStart
    ensures forall r :: RowCovered(ExactBlocks<C>(imageHeight, imageWidth), r) <==> 0 <= r < imageHeight
    ensures forall i, i' :: 0 <= i < i' < |ExactBlocks<C>(imageHeight, imageWidth)| ==>
      ExactBlocks<C>(imageHeight, imageWidth)[i].rowEnd <= ExactBlocks<C>(imageHeight, imageWidth)[i'].rowStart
  {
    var jobs := ExactBlocks<C>(imageHeight, imageWidth);
    forall r | 0 <= r < imageHeight
      ensures RowCovered(jobs, r)
    {
      var k := r / RowsPerJob;
      assert jobs[k].rowStart <= r < jobs[k].rowEnd;
    }
  }
}
