/**
 * BoundingBoxEstimator: the winner's mask is softened with a 5x5 box blur
 * and re-thresholded at 1e-4, the set pixels are listed (`np.where`), and
 * `minmax` of their rows and of their columns gives the box whose midpoint
 * is reported.
 *
 * A 5x5 box blur of a 0/1 mask is the mean of the window around a pixel.
 * Assumed here: at the border the window is filled with zeros or with copies
 * of frame pixels that lie within two rows and two columns of the pixel
 * (OpenCV's default reflection does the latter). Under that assumption the
 * mean is either 0 or at least 1/25, so `> 1e-4` holds exactly when some set
 * pixel lies within Chebyshev distance 2 inside the frame: `Dilate` below.
 */
module BoundingBox {
  import opened Frames

  /** Some set pixel of `m` lies within two rows and two columns of `(r, c)`. */
  predicate Near(m: Grid<bool>, r: int, c: int)
  {
    exists i, j :: r - 2 <= i <= r + 2 && c - 2 <= j <= c + 2 && InGrid(m, i, j) && m[i][j]
  }

  /** `cv.blur(mask, (5, 5)) > 1e-4` on a 0/1 mask. */
  function Dilate(m: Grid<bool>): (d: Grid<bool>)
    ensures |d| == |m| && forall r :: 0 <= r < |d| ==> |d[r]| == |m[r]|
    ensures forall r, c :: InGrid(m, r, c) ==> d[r][c] == Near(m, r, c)
    ensures forall r, c :: InGrid(m, r, c) && m[r][c] ==> d[r][c]
  {
    seq(|m|, r requires 0 <= r < |m| =>
      seq(|m[r]|, c requires 0 <= c < |m[r]| => Near(m, r, c)))
  }

  /** `p` is the (row, col) of a set pixel of `m`. */
  predicate SetPixel(m: Grid<bool>, p: (int, int))
  {
    InGrid(m, p.0, p.1) && m[p.0][p.1]
  }

  /** `p` is the (row, col) of a set pixel, at row `r` and column `c` or later, of the row `row`. */
  predicate RowPixel(row: seq<bool>, r: int, c: nat, p: (int, int))
  {
    p.0 == r && c <= p.1 < |row| && row[p.1]
  }

  /** Set pixels of one row, from column `c` on, as (row, col) pairs. */
  function WhereRow(row: seq<bool>, r: int, c: nat): (ps: seq<(int, int)>)
    decreases |row| - c
    ensures forall p :: p in ps <==> RowPixel(row, r, c, p)
  {
    if c >= |row| then [] else (if row[c] then [(r, c)] else []) + WhereRow(row, r, c + 1)
  }

  /** Set pixels of the rows from `r` on, in row-major order. */
  function WhereFrom(m: Grid<bool>, r: nat): (ps: seq<(int, int)>)
    decreases |m| - r
    ensures forall p :: p in ps <==> r <= p.0 && SetPixel(m, p)
  {
    if r >= |m| then [] else WhereRow(m[r], r, 0) + WhereFrom(m, r + 1)
  }

  /** `np.where(m)`: the coordinates of every set pixel. */
  function Where(m: Grid<bool>): seq<(int, int)>
  {
    WhereFrom(m, 0)
  }

  /** The row of each listed pixel, in order (`ys` of `ys, xs = np.where(...)`). */
  function Rows(ps: seq<(int, int)>): (ys: seq<int>)
    ensures |ys| == |ps| && forall k :: 0 <= k < |ps| ==> ys[k] == ps[k].0
  {
    if ps == [] then [] else Rows(ps[..|ps| - 1]) + [ps[|ps| - 1].0]
  }

  /** The column of each listed pixel, in order (`xs`). */
  function Cols(ps: seq<(int, int)>): (xs: seq<int>)
    ensures |xs| == |ps| && forall k :: 0 <= k < |ps| ==> xs[k] == ps[k].1
  {
    if ps == [] then [] else Cols(ps[..|ps| - 1]) + [ps[|ps| - 1].1]
  }

  /** `minmax(arr)`: the smallest and the largest element. */
  function MinMax(arr: seq<int>): (mm: (int, int))
    requires |arr| > 0
    ensures mm.0 in arr && mm.1 in arr
    ensures forall v :: v in arr ==> mm.0 <= v <= mm.1
  {
    if |arr| == 1 then (arr[0], arr[0])
    else
      var rest := MinMax(arr[1..]);
      assert arr == [arr[0]] + arr[1..];
      (if arr[0] < rest.0 then arr[0] else rest.0, if arr[0] > rest.1 then arr[0] else rest.1)
  }

  /** An element below or equal to all others is the minimum `minmax` returns. */
  lemma MinIs(arr: seq<int>, v: int)
    requires v in arr && forall w :: w in arr ==> v <= w
    ensures MinMax(arr).0 == v
  {
  }

  /** An element above or equal to all others is the maximum `minmax` returns. */
  lemma MaxIs(arr: seq<int>, v: int)
    requires v in arr && forall w :: w in arr ==> w <= v
    ensures MinMax(arr).1 == v
  {
  }

  ghost predicate NonEmpty(m: Grid<bool>)
  {
    exists r, c :: InGrid(m, r, c) && m[r][c]
  }

  /** `y` is a row of some set pixel exactly when it is listed by `Rows(Where(m))`. */
  lemma RowsOfWhere(m: Grid<bool>, y: int)
    ensures y in Rows(Where(m)) <==> exists c :: InGrid(m, y, c) && m[y][c]
  {
    var ps := Where(m);
    if y in Rows(ps) {
      var k :| 0 <= k < |ps| && Rows(ps)[k] == y;
      assert ps[k] in ps;
      assert InGrid(m, y, ps[k].1);
    }
    if c :| InGrid(m, y, c) && m[y][c] {
      assert (y, c) in ps;
      var k :| 0 <= k < |ps| && ps[k] == (y, c);
      assert Rows(ps)[k] == y;
    }
  }

  /** `x` is a column of some set pixel exactly when it is listed by `Cols(Where(m))`. */
  lemma ColsOfWhere(m: Grid<bool>, x: int)
    ensures x in Cols(Where(m)) <==> exists r :: InGrid(m, r, x) && m[r][x]
  {
    var ps := Where(m);
    if x in Cols(ps) {
      var k :| 0 <= k < |ps| && Cols(ps)[k] == x;
      assert ps[k] in ps;
      assert InGrid(m, ps[k].0, x);
    }
    if r :| InGrid(m, r, x) && m[r][x] {
      assert (r, x) in ps;
      var k :| 0 <= k < |ps| && ps[k] == (r, x);
      assert Cols(ps)[k] == x;
    }
  }

  /** Inclusive bounds: rows `top .. bottom`, columns `left .. right`. */
  datatype Box = Box(top: int, bottom: int, left: int, right: int)

  /** `y_min, y_max = minmax(ys)` and `x_min, x_max = minmax(xs)` over the set pixels. */
  function BoxOf(m: Grid<bool>): Box
    requires NonEmpty(m)
  {
    var ps := Where(m);
    WhereNonEmpty(m);
    var ys, xs := MinMax(Rows(ps)), MinMax(Cols(ps));
    Box(ys.0, ys.1, xs.0, xs.1)
  }

  lemma WhereNonEmpty(m: Grid<bool>)
    requires NonEmpty(m)
    ensures |Where(m)| > 0
  {
    var r, c :| InGrid(m, r, c) && m[r][c];
    assert (r, c) in Where(m);
  }

  /** Every set pixel lies in the box. */
  lemma InBox(m: Grid<bool>, r: int, c: int)
    requires NonEmpty(m) && InGrid(m, r, c) && m[r][c]
    ensures BoxOf(m).top <= r <= BoxOf(m).bottom && BoxOf(m).left <= c <= BoxOf(m).right
  {
    RowsOfWhere(m, r);
    ColsOfWhere(m, c);
  }

  /** The top row of the box holds a set pixel. */
  lemma TopPixel(m: Grid<bool>) returns (c: int)
    requires NonEmpty(m)
    ensures InGrid(m, BoxOf(m).top, c) && m[BoxOf(m).top][c]
  {
    RowsOfWhere(m, BoxOf(m).top);
    c :| InGrid(m, BoxOf(m).top, c) && m[BoxOf(m).top][c];
  }

  /** The bottom row of the box holds a set pixel. */
  lemma BottomPixel(m: Grid<bool>) returns (c: int)
    requires NonEmpty(m)
    ensures InGrid(m, BoxOf(m).bottom, c) && m[BoxOf(m).bottom][c]
  {
    RowsOfWhere(m, BoxOf(m).bottom);
    c :| InGrid(m, BoxOf(m).bottom, c) && m[BoxOf(m).bottom][c];
  }

  /** The left column of the box holds a set pixel. */
  lemma LeftPixel(m: Grid<bool>) returns (r: int)
    requires NonEmpty(m)
    ensures InGrid(m, r, BoxOf(m).left) && m[r][BoxOf(m).left]
  {
    ColsOfWhere(m, BoxOf(m).left);
    r :| InGrid(m, r, BoxOf(m).left) && m[r][BoxOf(m).left];
  }

  /** The right column of the box holds a set pixel. */
  lemma RightPixel(m: Grid<bool>) returns (r: int)
    requires NonEmpty(m)
    ensures InGrid(m, r, BoxOf(m).right) && m[r][BoxOf(m).right]
  {
    ColsOfWhere(m, BoxOf(m).right);
    r :| InGrid(m, r, BoxOf(m).right) && m[r][BoxOf(m).right];
  }

  /** `minmax` over the set pixels gives the tightest box: it encloses them all and each side touches one. */
  lemma BoxSpec(m: Grid<bool>)
    requires NonEmpty(m)
    ensures var b := BoxOf(m);
      && (forall r, c :: InGrid(m, r, c) && m[r][c] ==> b.top <= r <= b.bottom && b.left <= c <= b.right)
      && (exists c :: InGrid(m, b.top, c) && m[b.top][c])
      && (exists c :: InGrid(m, b.bottom, c) && m[b.bottom][c])
      && (exists r :: InGrid(m, r, b.left) && m[r][b.left])
      && (exists r :: InGrid(m, r, b.right) && m[r][b.right])
  {
    forall r, c | InGrid(m, r, c) && m[r][c]
      ensures BoxOf(m).top <= r <= BoxOf(m).bottom && BoxOf(m).left <= c <= BoxOf(m).right
    {
      InBox(m, r, c);
    }
    var ct := TopPixel(m);
    var cb := BottomPixel(m);
    var rl := LeftPixel(m);
    var rr := RightPixel(m);
  }

  function Max(a: int, b: int): int
  {
    if a < b then b else a
  }

  function Min(a: int, b: int): int
  {
    if a < b then a else b
  }

  /** A box grown by two pixels on every side and clipped to an ny x nx frame. */
  function Expand(b: Box, ny: nat, nx: nat): Box
  {
    Box(Max(0, b.top - 2), Min(ny - 1, b.bottom + 2), Max(0, b.left - 2), Min(nx - 1, b.right + 2))
  }

  /** A set pixel of `m` sets every frame pixel within two rows and two columns of it. */
  lemma DilateCovers(m: Grid<bool>, ny: nat, nx: nat, r: int, c: int, i: int, j: int)
    requires IsGrid(m, ny, nx) && InGrid(m, i, j) && m[i][j]
    requires 0 <= r < ny && 0 <= c < nx && r - 2 <= i <= r + 2 && c - 2 <= j <= c + 2
    ensures InGrid(Dilate(m), r, c) && Dilate(m)[r][c]
  {
    assert Near(m, r, c);
  }

  /** A set pixel of the softened mask has a set pixel of `m` within two rows and two columns. */
  lemma DilatedFrom(m: Grid<bool>, r: int, c: int) returns (i: int, j: int)
    requires InGrid(Dilate(m), r, c) && Dilate(m)[r][c]
    ensures InGrid(m, i, j) && m[i][j] && r - 2 <= i <= r + 2 && c - 2 <= j <= c + 2
  {
    assert Near(m, r, c);
    i, j :| r - 2 <= i <= r + 2 && c - 2 <= j <= c + 2 && InGrid(m, i, j) && m[i][j];
  }

  /** Each side of the grown box touches a set pixel of the softened mask. */
  lemma DilateTouchesTop(m: Grid<bool>, ny: nat, nx: nat) returns (c: int)
    requires IsGrid(m, ny, nx) && NonEmpty(m)
    ensures InGrid(Dilate(m), Expand(BoxOf(m), ny, nx).top, c) && Dilate(m)[Expand(BoxOf(m), ny, nx).top][c]
  {
    var b := BoxOf(m);
    c := TopPixel(m);
    DilateCovers(m, ny, nx, Expand(b, ny, nx).top, c, b.top, c);
  }

  lemma DilateTouchesBottom(m: Grid<bool>, ny: nat, nx: nat) returns (c: int)
    requires IsGrid(m, ny, nx) && NonEmpty(m)
    ensures InGrid(Dilate(m), Expand(BoxOf(m), ny, nx).bottom, c) && Dilate(m)[Expand(BoxOf(m), ny, nx).bottom][c]
  {
    var b := BoxOf(m);
    c := BottomPixel(m);
    DilateCovers(m, ny, nx, Expand(b, ny, nx).bottom, c, b.bottom, c);
  }

  lemma DilateTouchesLeft(m: Grid<bool>, ny: nat, nx: nat) returns (r: int)
    requires IsGrid(m, ny, nx) && NonEmpty(m)
    ensures InGrid(Dilate(m), r, Expand(BoxOf(m), ny, nx).left) && Dilate(m)[r][Expand(BoxOf(m), ny, nx).left]
  {
    var b := BoxOf(m);
    r := LeftPixel(m);
    DilateCovers(m, ny, nx, r, Expand(b, ny, nx).left, r, b.left);
  }

  lemma DilateTouchesRight(m: Grid<bool>, ny: nat, nx: nat) returns (r: int)
    requires IsGrid(m, ny, nx) && NonEmpty(m)
    ensures InGrid(Dilate(m), r, Expand(BoxOf(m), ny, nx).right) && Dilate(m)[r][Expand(BoxOf(m), ny, nx).right]
  {
    var b := BoxOf(m);
    r := RightPixel(m);
    DilateCovers(m, ny, nx, r, Expand(b, ny, nx).right, r, b.right);
  }

  /** Every set pixel of the softened mask lies within the grown box. */
  lemma DilateInsideGrown(m: Grid<bool>, ny: nat, nx: nat, r: int, c: int)
    requires IsGrid(m, ny, nx) && NonEmpty(m)
    requires InGrid(Dilate(m), r, c) && Dilate(m)[r][c]
    ensures var e := Expand(BoxOf(m), ny, nx);
      e.top <= r <= e.bottom && e.left <= c <= e.right
  {
    var i, j := DilatedFrom(m, r, c);
    InBox(m, i, j);
  }

  /**
   * The box of the softened mask is the box of the mask itself grown by two
   * pixels on every side and clipped to the frame.
   */
  lemma BoxOfDilate(m: Grid<bool>, ny: nat, nx: nat)
    requires IsGrid(m, ny, nx) && NonEmpty(m)
    ensures NonEmpty(Dilate(m))
    ensures BoxOf(Dilate(m)) == Expand(BoxOf(m), ny, nx)
  {
    var d := Dilate(m);
    var e := Expand(BoxOf(m), ny, nx);
    var ct := DilateTouchesTop(m, ny, nx);
    var cb := DilateTouchesBottom(m, ny, nx);
    var rl := DilateTouchesLeft(m, ny, nx);
    var rr := DilateTouchesRight(m, ny, nx);
    assert NonEmpty(d);
    var ps := Where(d);
    RowsOfWhere(d, e.top);
    RowsOfWhere(d, e.bottom);
    ColsOfWhere(d, e.left);
    ColsOfWhere(d, e.right);
    forall y | y in Rows(ps)
      ensures e.top <= y <= e.bottom
    {
      RowsOfWhere(d, y);
      var c :| InGrid(d, y, c) && d[y][c];
      DilateInsideGrown(m, ny, nx, y, c);
    }
    forall x | x in Cols(ps)
      ensures e.left <= x <= e.right
    {
      ColsOfWhere(d, x);
      var r :| InGrid(d, r, x) && d[r][x];
      DilateInsideGrown(m, ny, nx, r, x);
    }
    MinIs(Rows(ps), e.top);
    MaxIs(Rows(ps), e.bottom);
    MinIs(Cols(ps), e.left);
    MaxIs(Cols(ps), e.right);
  }

  /** `(lo + hi) // 2`; for a positive divisor Dafny's division floors too. */
  function Midpoint(lo: int, hi: int): (mid: int)
    ensures 2 * mid <= lo + hi < 2 * mid + 2
  {
    (lo + hi) / 2
  }

  /**
   * The reported position of a winner mask: the midpoint of the softened
   * mask's box, (x, y), which is the midpoint of the mask's own box grown by
   * two pixels on every side and clipped to the frame.
   */
  function ReportedPoint(m: Grid<bool>, ny: nat, nx: nat): (pt: (int, int))
    requires IsGrid(m, ny, nx) && NonEmpty(m)
    ensures var e := Expand(BoxOf(m), ny, nx);
      pt == (Midpoint(e.left, e.right), Midpoint(e.top, e.bottom))
  {
    BoxOfDilate(m, ny, nx);
    var b := BoxOf(Dilate(m));
    (Midpoint(b.left, b.right), Midpoint(b.top, b.bottom))
  }

  /** The grown box encloses every set pixel of the mask. */
  lemma GrownEncloses(m: Grid<bool>, ny: nat, nx: nat, r: int, c: int)
    requires IsGrid(m, ny, nx) && NonEmpty(m) && InGrid(m, r, c) && m[r][c]
    ensures var e := Expand(BoxOf(m), ny, nx);
      e.top <= r <= e.bottom && e.left <= c <= e.right
  {
    InBox(m, r, c);
  }

  /** The grown box of a nonempty mask is not degenerate. */
  lemma GrownProper(m: Grid<bool>, ny: nat, nx: nat)
    requires IsGrid(m, ny, nx) && NonEmpty(m)
    ensures var e := Expand(BoxOf(m), ny, nx);
      e.top <= e.bottom && e.left <= e.right
  {
    var r0, c0 :| InGrid(m, r0, c0) && m[r0][c0];
    GrownEncloses(m, ny, nx, r0, c0);
  }

  /**
   * For a nonempty winner mask the reported point lies inside the grown box,
   * and that box encloses every pixel of the mask.
   */
  lemma ReportedPointSpec(m: Grid<bool>, ny: nat, nx: nat)
    requires IsGrid(m, ny, nx) && NonEmpty(m)
    ensures var e := Expand(BoxOf(m), ny, nx);
      && e.left <= ReportedPoint(m, ny, nx).0 <= e.right
      && e.top <= ReportedPoint(m, ny, nx).1 <= e.bottom
      && (forall r, c :: InGrid(m, r, c) && m[r][c] ==> e.top <= r <= e.bottom && e.left <= c <= e.right)
  {
    var e := Expand(BoxOf(m), ny, nx);
    forall r, c | InGrid(m, r, c) && m[r][c]
      ensures e.top <= r <= e.bottom && e.left <= c <= e.right
    {
      GrownEncloses(m, ny, nx, r, c);
    }
    GrownProper(m, ny, nx);
    MidpointWithin(e.left, e.right);
    MidpointWithin(e.top, e.bottom);
  }

  lemma MidpointWithin(lo: int, hi: int)
    requires lo <= hi
    ensures lo <= Midpoint(lo, hi) <= hi
  {
  }
}
