/** Small facts about integer multiplication that the row/column
    arithmetic of the renderer relies on. */
module Arith {

  /** Multiplying by a non-negative factor keeps the order of the other factor. */
  lemma MulMono(a: int, b: int, w: int)
    requires a <= b && 0 <= w
    ensures a * w <= b * w
  {
    assert b * w - a * w == (b - a) * w;
  }

  /** A linear pixel index `row * w + col` with `0 <= col < w` determines its
      row and its column. */
  lemma RowColUnique(r: int, c: int, r': int, c': int, w: int)
    requires 0 <= c < w && 0 <= c' < w
    requires r * w + c == r' * w + c'
    ensures r == r' && c == c'
  {
    if r < r' {
      MulMono(r + 1, r', w);
      assert false;
    } else if r' < r {
      MulMono(r' + 1, r, w);
      assert false;
    }
  }
}
