/** The last step of `imagerender`: every finished block writes its colours
    into the image buffer at the linear indices it recorded, block after
    block, colour after colour. A later write to the same index wins. */
module Merge {
  import opened BlockJobs

  /** Every block of `blocks` can be written into a buffer of `size` entries:
      it has an index for each of its colours, and those indices are in range. */
  predicate Placeable<C>(blocks: seq<BlockJob<C>>, size: int) {
    forall b :: 0 <= b < |blocks| ==>
      |blocks[b].colors| <= |blocks[b].indices|
      && forall k :: 0 <= k < |blocks[b].colors| ==> 0 <= blocks[b].indices[k] < size
  }

  /** `img` after `img[idx[k]] = cols[k]` for `k = 0, 1, ...`, in that order. */
  function Scatter<C>(img: seq<C>, idx: seq<int>, cols: seq<C>): (r: seq<C>)
    requires |cols| <= |idx|
    requires forall k :: 0 <= k < |cols| ==> 0 <= idx[k] < |img|
    ensures |r| == |img|
    decreases |cols|
  {
    if cols == [] then img
    else Scatter(img, idx, cols[..|cols| - 1])[idx[|cols| - 1] := cols[|cols| - 1]]
  }

  /** `img` after every block of `blocks`, in order, has been scattered into it. */
  function MergeAll<C>(img: seq<C>, blocks: seq<BlockJob<C>>): (r: seq<C>)
    requires Placeable(blocks, |img|)
    ensures |r| == |img|
    decreases |blocks|
  {
    if blocks == [] then img
    else
      var last := blocks[|blocks| - 1];
      Scatter(MergeAll(img, blocks[..|blocks| - 1]), last.indices, last.colors)
  }

  /** Block `b` writes its `k`-th colour at position `p`. */
  predicate Names<C>(blocks: seq<BlockJob<C>>, b: int, k: int, p: int) {
    0 <= b < |blocks| && 0 <= k < |blocks[b].colors| && k < |blocks[b].indices|
    && blocks[b].indices[k] == p
  }

  /** A position no index names keeps its old value. */
  lemma {:induction false} ScatterUntouched<C>(img: seq<C>, idx: seq<int>, cols: seq<C>, p: int)
    requires |cols| <= |idx|
    requires forall k :: 0 <= k < |cols| ==> 0 <= idx[k] < |img|
    requires 0 <= p < |img|
    requires forall k :: 0 <= k < |cols| ==> idx[k] != p
    ensures Scatter(img, idx, cols)[p] == img[p]
    decreases |cols|
  {
    if cols != [] {
      ScatterUntouched(img, idx, cols[..|cols| - 1], p);
    }
  }

  /** A position holds the colour of the last write that names it. */
  lemma {:induction false} ScatterLast<C>(img: seq<C>, idx: seq<int>, cols: seq<C>, p: int, k: int)
    requires |cols| <= |idx|
    requires forall j :: 0 <= j < |cols| ==> 0 <= idx[j] < |img|
    requires 0 <= k < |cols| && idx[k] == p
    requires forall j :: k < j < |cols| ==> idx[j] != p
    ensures Scatter(img, idx, cols)[p] == cols[k]
    decreases |cols|
  {
    if k < |cols| - 1 {
      ScatterLast(img, idx, cols[..|cols| - 1], p, k);
    }
  }

  /** A position that every write naming it sets to `v`, and that at least
      one write names, ends up `v`. */
  lemma {:induction false} ScatterUniform<C>(img: seq<C>, idx: seq<int>, cols: seq<C>, p: int, v: C)
    requires |cols| <= |idx|
    requires forall j :: 0 <= j < |cols| ==> 0 <= idx[j] < |img|
    requires exists j :: 0 <= j < |cols| && idx[j] == p
    requires forall j :: 0 <= j < |cols| && idx[j] == p ==> cols[j] == v
    ensures Scatter(img, idx, cols)[p] == v
    decreases |cols|
  {
    if idx[|cols| - 1] != p {
      var j :| 0 <= j < |cols| && idx[j] == p;
      assert j < |cols| - 1 && cols[..|cols| - 1][j] == cols[j];
      ScatterUniform(img, idx, cols[..|cols| - 1], p, v);
    }
  }

  /** A position that no block names keeps its initial value. */
  lemma {:induction false} MergeUntouched<C>(img: seq<C>, blocks: seq<BlockJob<C>>, p: int)
    requires Placeable(blocks, |img|)
    requires 0 <= p < |img|
    requires forall b, k :: !Names(blocks, b, k, p)
    ensures MergeAll(img, blocks)[p] == img[p]
    decreases |blocks|
  {
    if blocks != [] {
      var n := |blocks| - 1;
      var front := blocks[..n];
      forall b, k ensures !Names(front, b, k, p) {
        assert Names(front, b, k, p) ==> Names(blocks, b, k, p);
      }
      MergeUntouched(img, front, p);
      forall k | 0 <= k < |blocks[n].colors| ensures blocks[n].indices[k] != p {
        assert !Names(blocks, n, k, p);
      }
      ScatterUntouched(MergeAll(img, front), blocks[n].indices, blocks[n].colors, p);
    }
  }

  /** A position holds the colour of the last block, and within it the last
      entry, that names it. */
  lemma {:induction false} MergeLast<C>(img: seq<C>, blocks: seq<BlockJob<C>>, p: int, b: int, k: int)
    requires Placeable(blocks, |img|)
    requires Names(blocks, b, k, p)
    requires forall b', k' :: Names(blocks, b', k', p) ==> b' < b || (b' == b && k' <= k)
    ensures MergeAll(img, blocks)[p] == blocks[b].colors[k]
    decreases |blocks|
  {
    var n := |blocks| - 1;
    var front := blocks[..n];
    var last := blocks[n];
    if b < n {
      forall b', k' | Names(front, b', k', p) ensures b' < b || (b' == b && k' <= k) {
        assert Names(blocks, b', k', p);
      }
      assert Names(front, b, k, p);
      MergeLast(img, front, p, b, k);
      forall j | 0 <= j < |last.colors| ensures last.indices[j] != p {
        assert !Names(blocks, n, j, p);
      }
      ScatterUntouched(MergeAll(img, front), last.indices, last.colors, p);
    } else {
      forall j | k < j < |last.colors| ensures last.indices[j] != p {
        assert !Names(blocks, n, j, p);
      }
      ScatterLast(MergeAll(img, front), last.indices, last.colors, p, k);
    }
  }

  /** A position that some block names, and that every naming entry sets to
      `v`, ends up `v`. */
  lemma {:induction false} MergeUniform<C>(img: seq<C>, blocks: seq<BlockJob<C>>, p: int, v: C)
    requires Placeable(blocks, |img|)
    requires exists b, k :: Names(blocks, b, k, p)
    requires forall b, k :: Names(blocks, b, k, p) ==> blocks[b].colors[k] == v
    ensures MergeAll(img, blocks)[p] == v
    decreases |blocks|
  {
    var n := |blocks| - 1;
    var front := blocks[..n];
    var last := blocks[n];
    if exists j :: 0 <= j < |last.colors| && last.indices[j] == p {
      forall j | 0 <= j < |last.colors| && last.indices[j] == p ensures last.colors[j] == v {
        assert Names(blocks, n, j, p);
      }
      ScatterUniform(MergeAll(img, front), last.indices, last.colors, p, v);
    } else {
      var b, k :| Names(blocks, b, k, p);
      assert b < n && Names(front, b, k, p);
      forall b', k' | Names(front, b', k', p) ensures front[b'].colors[k'] == v {
        assert Names(blocks, b', k', p);
      }
      MergeUniform(img, front, p, v);
      ScatterUntouched(MergeAll(img, front), last.indices, last.colors, p);
    }
  }

  /** The merge loop of `imagerender`: writes every block's colours into
      `image` at the block's recorded indices. */
  method Merge<C>(image: array<C>, blocks: seq<BlockJob<C>>)
    requires Placeable(blocks, image.Length)
    modifies image
    ensures image[..] == MergeAll(old(image[..]), blocks)
  {
    ghost var initial := image[..];
    for b := 0 to |blocks|
      invariant image[..] == MergeAll(initial, blocks[..b])
    {
      var job := blocks[b];
      assert blocks[..b + 1][..b] == blocks[..b];
      var colorIndex := 0;
      while colorIndex < |job.colors|
        invariant 0 <= colorIndex <= |job.colors|
        invariant image[..] == Scatter(MergeAll(initial, blocks[..b]), job.indices, job.colors[..colorIndex])
      {
        var colIndex := job.indices[colorIndex];
        assert job.colors[..colorIndex + 1][..colorIndex] == job.colors[..colorIndex];
        image[colIndex] := job.colors[colorIndex];
        colorIndex := colorIndex + 1;
      }
      assert job.colors[..colorIndex] == job.colors;
    }
    assert blocks[..|blocks|] == blocks;
  }
}
