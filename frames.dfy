/**
 * Shared vocabulary of the tracker: optional values, 2-D grids (frames and
 * masks), the pixel count of a mask, and the two coordinate orders the code
 * meets (x-first centroids from the labelling routine, row-first points
 * everywhere else).
 */
module Frames {

  datatype Option<T> = None | Some(value: T)

  /** Smallest pixel count of an object worth tracking. */
  const SMALLEST_TRACKING_OBJECT: nat := 200

  /** A frame, a mask or a label image: rows of samples. */
  type Grid<T> = seq<seq<T>>

  /** `g` has `ny` rows of `nx` samples each. */
  ghost predicate IsGrid<T>(g: Grid<T>, ny: nat, nx: nat)
  {
    |g| == ny && forall r :: 0 <= r < ny ==> |g[r]| == nx
  }

  /** `(r, c)` addresses a sample of `g`. */
  predicate InGrid<T>(g: Grid<T>, r: int, c: int)
  {
    0 <= r < |g| && 0 <= c < |g[r]|
  }

  /** Number of set pixels in one row of a mask. */
  function RowCount(row: seq<bool>): nat
  {
    if row == [] then 0 else RowCount(row[..|row| - 1]) + (if row[|row| - 1] then 1 else 0)
  }

  /** Number of set pixels of a mask (numpy's `mask.sum()`). */
  function Size(m: Grid<bool>): nat
  {
    if m == [] then 0 else Size(m[..|m| - 1]) + RowCount(m[|m| - 1])
  }

  lemma {:induction false} RowCountPositive(row: seq<bool>)
    requires RowCount(row) > 0
    ensures exists c :: 0 <= c < |row| && row[c]
  {
    if !row[|row| - 1] {
      RowCountPositive(row[..|row| - 1]);
      var c :| 0 <= c < |row| - 1 && row[..|row| - 1][c];
      assert row[c];
    }
  }

  /** A mask with a positive pixel count has a set pixel. */
  lemma {:induction false} SizePositive(m: Grid<bool>)
    requires Size(m) > 0
    ensures exists r, c :: InGrid(m, r, c) && m[r][c]
  {
    var last := |m| - 1;
    if RowCount(m[last]) > 0 {
      RowCountPositive(m[last]);
      var c :| 0 <= c < |m[last]| && m[last][c];
      assert InGrid(m, last, c);
    } else {
      SizePositive(m[..last]);
      var r, c :| InGrid(m[..last], r, c) && m[..last][r][c];
      assert InGrid(m, r, c) && m[r][c];
    }
  }

  /** A row with every pixel set counts its length. */
  lemma {:induction false} RowCountAllTrue(row: seq<bool>)
    requires forall c :: 0 <= c < |row| ==> row[c]
    ensures RowCount(row) == |row|
  {
    if row != [] {
      RowCountAllTrue(row[..|row| - 1]);
    }
  }

  /** An ny x nx mask with every pixel set counts ny * nx pixels. */
  lemma {:induction false} SizeAllTrue(m: Grid<bool>, ny: nat, nx: nat)
    requires IsGrid(m, ny, nx)
    requires forall r, c :: InGrid(m, r, c) ==> m[r][c]
    ensures Size(m) == ny * nx
  {
    if ny > 0 {
      var last := ny - 1;
      SizeAllTrue(m[..last], last, nx);
      RowCountAllTrue(m[last]);
      assert Size(m) == Size(m[..last]) + RowCount(m[last]);
    }
  }

  /** A centroid as the labelling routine reports it: column first. */
  datatype XY = XY(x: real, y: real)

  /** A point in row-first order, as the tracker stores centers. */
  datatype Point = Point(row: real, col: real)

  /** The reversal `centroids[:, ::-1]`: (x, y) becomes (row, col) = (y, x). */
  function Flip(c: XY): Point
  {
    Point(c.y, c.x)
  }
}
