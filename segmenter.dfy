/**
 * FrameSegmenter: the brightness threshold, the foreground predicate and the
 * size filter that ends `img_to_object_mask_threshold`. The box blur of the
 * frame, the erosion, the dilation and the component labelling between them
 * are library filters; their results are inputs here.
 */
module Segmenter {
  import opened Frames

  /**
   * Threshold derived from Otsu's value: 1.2 times it when it exceeds 50,
   * otherwise the fixed fallback 110.
   */
  function Threshold(otsu: real): (t: real)
    ensures t > 60.0
    ensures otsu > 50.0 ==> t == 1.2 * otsu
    ensures otsu <= 50.0 ==> t == 110.0
  {
    if otsu > 50.0 then 1.2 * otsu else 110.0
  }

  /** The threshold never falls below a nonnegative Otsu value. */
  lemma ThresholdAtLeastOtsu(otsu: real)
    requires otsu >= 0.0
    ensures Threshold(otsu) >= otsu
  {
  }

  /**
   * The threshold is not monotone in Otsu's value: it falls from the
   * fallback 110 at 50 to just above 60 right after, and stays below 110
   * until Otsu's value reaches 110 / 1.2.
   */
  lemma ThresholdNotMonotone(otsu: real)
    requires 50.0 < otsu < 110.0 / 1.2
    ensures Threshold(otsu) < Threshold(50.0)
    ensures Threshold(50.0) == 110.0 && Threshold(51.0) == 61.2
  {
  }

  /**
   * Foreground mask of the blurred frame: a pixel is foreground exactly when
   * its blurred intensity is strictly below the threshold (objects are dark).
   */
  function Foreground(blurred: Grid<int>, t: real): (m: Grid<bool>)
    ensures |m| == |blurred| && forall r :: 0 <= r < |m| ==> |m[r]| == |blurred[r]|
    ensures forall r, c :: InGrid(blurred, r, c) ==> (m[r][c] <==> (blurred[r][c] as real) < t)
  {
    seq(|blurred|, r requires 0 <= r < |blurred| =>
      seq(|blurred[r]|, c requires 0 <= c < |blurred[r]| => (blurred[r][c] as real) < t))
  }

  /**
   * Every pixel that Otsu's value itself classes as dark is foreground under
   * the derived threshold, and a pixel at or above the threshold never is.
   */
  lemma OtsuDarkIsForeground(blurred: Grid<int>, otsu: real, r: int, c: int)
    requires otsu >= 0.0 && InGrid(blurred, r, c)
    ensures (blurred[r][c] as real) < otsu ==> Foreground(blurred, Threshold(otsu))[r][c]
    ensures (blurred[r][c] as real) >= Threshold(otsu) ==> !Foreground(blurred, Threshold(otsu))[r][c]
  {
    ThresholdAtLeastOtsu(otsu);
  }

  /** Label value a pixel keeps after the size filter has run over every label. */
  function Survivor(l: int, areas: seq<int>): int
  {
    if 0 <= l < |areas| && areas[l] <= SMALLEST_TRACKING_OBJECT then 0 else l
  }

  /** Label value after the filter has processed labels 0 .. i-1 only. */
  ghost function SurvivorBelow(l: int, areas: seq<int>, i: int): int
  {
    if 0 <= l < i && l < |areas| && areas[l] <= SMALLEST_TRACKING_OBJECT then 0 else l
  }

  /** `labels[labels == v] = 0`: zero every pixel carrying label `v`, in place. */
  method ZeroLabel(labels: array2<int>, v: int)
    modifies labels
    ensures forall r, c :: 0 <= r < labels.Length0 && 0 <= c < labels.Length1 ==>
      labels[r, c] == (if old(labels[r, c]) == v then 0 else old(labels[r, c]))
  {
    var r := 0;
    while r < labels.Length0
      invariant 0 <= r <= labels.Length0
      invariant forall i, j :: 0 <= i < labels.Length0 && 0 <= j < labels.Length1 ==>
        labels[i, j] == (if i < r && old(labels[i, j]) == v then 0 else old(labels[i, j]))
    {
      var c := 0;
      while c < labels.Length1
        invariant 0 <= c <= labels.Length1
        invariant forall i, j :: 0 <= i < labels.Length0 && 0 <= j < labels.Length1 ==>
          labels[i, j] == (if (i < r || (i == r && j < c)) && old(labels[i, j]) == v then 0 else old(labels[i, j]))
      {
        if labels[r, c] == v {
          labels[r, c] := 0;
        }
        c := c + 1;
      }
      r := r + 1;
    }
  }

  /**
   * The size filter: for every label i, in ascending order, whose area is at
   * most SMALLEST_TRACKING_OBJECT, zero its pixels in place; the object mask
   * is then `labels > 0`.
   */
  method SizeFilter(labels: array2<int>, areas: seq<int>) returns (mask: Grid<bool>)
    modifies labels
    ensures forall r, c :: 0 <= r < labels.Length0 && 0 <= c < labels.Length1 ==>
      labels[r, c] == Survivor(old(labels[r, c]), areas)
    ensures IsGrid(mask, labels.Length0, labels.Length1)
    ensures forall r, c :: 0 <= r < labels.Length0 && 0 <= c < labels.Length1 ==>
      mask[r][c] == (labels[r, c] > 0)
    ensures forall r, c :: 0 <= r < labels.Length0 && 0 <= c < labels.Length1 && 0 <= old(labels[r, c]) < |areas| ==>
      (mask[r][c] <==> old(labels[r, c]) != 0 && areas[old(labels[r, c])] > SMALLEST_TRACKING_OBJECT)
  {
    var i := 0;
    while i < |areas|
      invariant 0 <= i <= |areas|
      invariant forall r, c :: 0 <= r < labels.Length0 && 0 <= c < labels.Length1 ==>
        labels[r, c] == SurvivorBelow(old(labels[r, c]), areas, i)
    {
      if areas[i] <= SMALLEST_TRACKING_OBJECT {
        ZeroLabel(labels, i);
      }
      i := i + 1;
    }
    mask := [];
    var r := 0;
    while r < labels.Length0
      invariant 0 <= r <= labels.Length0
      invariant |mask| == r
      invariant forall i, j :: 0 <= i < r && 0 <= j < labels.Length1 ==> |mask[i]| == labels.Length1 && mask[i][j] == (labels[i, j] > 0)
      invariant forall i :: 0 <= i < r ==> |mask[i]| == labels.Length1
    {
      var row: seq<bool> := [];
      var c := 0;
      while c < labels.Length1
        invariant 0 <= c <= labels.Length1
        invariant |row| == c
        invariant forall j :: 0 <= j < c ==> row[j] == (labels[r, j] > 0)
      {
        row := row + [labels[r, c] > 0];
        c := c + 1;
      }
      mask := mask + [row];
      r := r + 1;
    }
  }
}
