/**
 * The per-frame entry points of `Detector`: `xy4x`, the segmentation-based
 * pipeline (candidate extraction, gate, box midpoint), and `xy10x`, which
 * asks an external point detector for the object's position in a cropped
 * frame. The point detector is a function parameter.
 */
module TrackerTools {
  import opened Frames
  import opened Candidates
  import opened TrackGate
  import opened BoundingBox

  /** Pixels removed from every edge before the point detector sees the frame. */
  const CROP_MARGIN: nat := 56

  /** Length of `a[56:-56]` for a sequence of length n. */
  function CroppedLength(n: nat): nat
  {
    if n > 2 * CROP_MARGIN then n - 2 * CROP_MARGIN else 0
  }

  /** `img[56:-56, 56:-56]`. */
  function Crop(img: Grid<int>, ny: nat, nx: nat): (c: Grid<int>)
    requires IsGrid(img, ny, nx)
    ensures IsGrid(c, CroppedLength(ny), CroppedLength(nx))
    ensures forall i, j :: 0 <= i < CroppedLength(ny) && 0 <= j < CroppedLength(nx) ==>
      c[i][j] == img[i + CROP_MARGIN][j + CROP_MARGIN]
  {
    seq(CroppedLength(ny), i requires 0 <= i < CroppedLength(ny) =>
      seq(CroppedLength(nx), j requires 0 <= j < CroppedLength(nx) => img[i + CROP_MARGIN][j + CROP_MARGIN]))
  }

  /** `astype(np.int64)` of a real: truncation toward zero. */
  function Trunc(v: real): (t: int)
    ensures v >= 0.0 ==> t as real <= v < t as real + 1.0
    ensures v < 0.0 ==> t as real - 1.0 < v <= t as real
  {
    if v >= 0.0 then v.Floor else -((-v).Floor)
  }

  /** The point detector's (x, y) in cropped coordinates, shifted back to the full frame. */
  function ToFrame(out: (real, real)): (int, int)
  {
    (Trunc(out.0) + CROP_MARGIN, Trunc(out.1) + CROP_MARGIN)
  }

  /**
   * When the detector answers with a point inside the cropped frame, the
   * shifted point lies in the frame, at least CROP_MARGIN pixels from every
   * edge, and addresses the very pixel the detector was pointing at.
   */
  lemma ToFrameInverts(img: Grid<int>, ny: nat, nx: nat, out: (real, real))
    requires IsGrid(img, ny, nx)
    requires 0.0 <= out.0 < CroppedLength(nx) as real && 0.0 <= out.1 < CroppedLength(ny) as real
    ensures var (x, y) := ToFrame(out);
      && CROP_MARGIN <= x < nx - CROP_MARGIN && CROP_MARGIN <= y < ny - CROP_MARGIN
      && img[y][x] == Crop(img, ny, nx)[y - CROP_MARGIN][x - CROP_MARGIN]
  {
    var (x, y) := ToFrame(out);
    assert Trunc(out.0) < CroppedLength(nx) && Trunc(out.1) < CroppedLength(ny);
  }

  /** The candidate the gate picks is a nonempty mask of the frame's shape. */
  lemma WinnerMask(mask: Grid<bool>, labels: Grid<int>, centroids: seq<XY>, p: GateParams, ny: nat, nx: nat)
    requires IsGrid(labels, ny, nx)
    requires Best(Extracted(mask, labels, centroids), p, |Extracted(mask, labels, centroids)|).Some?
    ensures var cands := Extracted(mask, labels, centroids);
      var m := cands[Best(cands, p, |cands|).value].pixels;
      IsGrid(m, ny, nx) && NonEmpty(m)
  {
    var cands := Extracted(mask, labels, centroids);
    var w := Best(cands, p, |cands|).value;
    ExtractedSpec(mask, labels, centroids, w);
    SizePositive(cands[w].pixels);
  }

  class Detector {
    /** The track state this detector reads and updates. */
    const tracker: Tracker

    constructor (tracker: Tracker)
      ensures this.tracker == tracker
    {
      this.tracker := tracker;
    }

    /**
     * One frame of the segmentation pipeline, from the object mask on:
     * extract the candidates, then gate them and report the winner's position.
     */
    method Xy4x(ny: nat, nx: nat, mask: Grid<bool>, labels: Grid<int>, centroids: seq<XY>)
      requires IsGrid(mask, ny, nx) && IsGrid(labels, ny, nx)
      requires WellLabelled(labels, |centroids|)
      modifies tracker
      ensures tracker.tracking == old(tracker.tracking)
      ensures var cands, p := Extracted(mask, labels, centroids), old(tracker.CurrentParams(ny, nx));
        tracker.foundTrackedWorm <==> exists j :: 0 <= j < |cands| && Passes(cands[j], p)
      ensures var cands, p := Extracted(mask, labels, centroids), old(tracker.CurrentParams(ny, nx));
        match Best(cands, p, |cands|)
        case None =>
          && tracker.trackedWormCenter == old(tracker.trackedWormCenter)
          && tracker.trackedWormSize == old(tracker.trackedWormSize)
          && tracker.xWorm == old(tracker.xWorm) && tracker.yWorm == old(tracker.yWorm)
        case Some(w) =>
          && NonEmpty(cands[w].pixels)
          && (var e := Expand(BoxOf(cands[w].pixels), ny, nx);
              tracker.xWorm == Midpoint(e.left, e.right) && tracker.yWorm == Midpoint(e.top, e.bottom))
          && (tracker.tracking ==>
                tracker.trackedWormSize == Some(Size(cands[w].pixels)) && tracker.trackedWormCenter == Some(cands[w].center))
          && (!tracker.tracking ==>
                tracker.trackedWormCenter == old(tracker.trackedWormCenter) && tracker.trackedWormSize == old(tracker.trackedWormSize))
    {
      var cands := Extract(mask, labels, centroids);
      ghost var p := tracker.CurrentParams(ny, nx);
      var winner := tracker.Gate(cands, ny, nx);
      if tracker.foundTrackedWorm {
        WinnerMask(mask, labels, centroids, p, ny, nx);
        var (x, y) := ReportedPoint(winner.value, ny, nx);
        tracker.SetPosition(x, y);
      }
    }

    /**
     * The point-detector mode: the detector always counts as found, and the
     * reported position is the detector's answer on the cropped frame,
     * truncated to integers and shifted back by CROP_MARGIN.
     */
    method Xy10x(img: Grid<int>, ny: nat, nx: nat, net: Grid<int> -> (real, real))
      requires IsGrid(img, ny, nx)
      modifies tracker
      ensures tracker.foundTrackedWorm
      ensures (tracker.xWorm, tracker.yWorm) == ToFrame(net(Crop(img, ny, nx)))
      ensures tracker.tracking == old(tracker.tracking)
      ensures tracker.trackedWormCenter == old(tracker.trackedWormCenter)
      ensures tracker.trackedWormSize == old(tracker.trackedWormSize)
    {
      tracker.foundTrackedWorm := true;
      var cropped := Crop(img, ny, nx);
      var out := net(cropped);
      var (x, y) := ToFrame(out);
      tracker.xWorm, tracker.yWorm := x, y;
    }
  }
}
