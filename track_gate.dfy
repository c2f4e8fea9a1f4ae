/**
 * TrackGate and TrackState: the persistent tracker record and the gate of
 * `Detector.xy4x` that picks, among the candidates of one frame, the one that
 * continues the track, and writes it back into the record in tracking mode.
 */
module TrackGate {
  import opened Frames
  import opened Candidates

  /** Largest Chebyshev distance, in pixels, a tracked object may move between frames. */
  const CENTER_SPEED: real := 100.0
  /** Relative size change tolerated between frames while tracking. */
  const SIZE_FLUCTUATIONS: real := 0.25

  function Abs(x: real): real
  {
    if x < 0.0 then -x else x
  }

  /** `np.max(np.abs(a - b))`: the larger of the two per-axis offsets. */
  function Chebyshev(a: Point, b: Point): (d: real)
    ensures Abs(a.row - b.row) <= d && Abs(a.col - b.col) <= d
    ensures d == Abs(a.row - b.row) || d == Abs(a.col - b.col)
    ensures d == 0.0 <==> a == b
  {
    var dr, dc := Abs(a.row - b.row), Abs(a.col - b.col);
    if dr >= dc then dr else dc
  }

  /**
   * What the gate compares against, fixed before the candidates are looked
   * at: the reference point and the size bounds (both bounds 0.0 when the
   * size gate is off).
   */
  datatype GateParams = GateParams(reference: Point, lower: real, upper: real)

  /** The frame's geometric center `np.array([ny/2, nx/2])`, true division. */
  function FrameCenter(ny: nat, nx: nat): (c: Point)
    ensures 2.0 * c.row == ny as real && 2.0 * c.col == nx as real
  {
    Point(ny as real / 2.0, nx as real / 2.0)
  }

  /**
   * The gate parameters the track state selects. The size gate is off
   * (`upper == 0.0`) exactly when not tracking, no size is stored, or the
   * stored size is 0; the bounds are in ratio 3 : 5 around the stored size.
   */
  function Params(tracking: bool, center: Option<Point>, size: Option<nat>, ny: nat, nx: nat): (p: GateParams)
    ensures p.upper == 0.0 <==> !(tracking && size.Some? && size.value > 0)
    ensures 0.0 <= p.lower <= p.upper && 5.0 * p.lower == 3.0 * p.upper
    ensures tracking && size.Some? ==> p.lower + p.upper == 2.0 * size.value as real
    ensures tracking && center.Some? ==> p.reference == center.value
    ensures !(tracking && center.Some?) ==> p.reference == FrameCenter(ny, nx)
  {
    GateParams(
      if tracking && center.Some? then center.value else FrameCenter(ny, nx),
      if tracking && size.Some? then size.value as real * (1.0 - SIZE_FLUCTUATIONS) else 0.0,
      if tracking && size.Some? then size.value as real * (1.0 + SIZE_FLUCTUATIONS) else 0.0)
  }

  /** Distance of a candidate's centroid from the reference point. */
  function Distance(c: Candidate, p: GateParams): (d: real)
    ensures 0.0 <= d
    ensures d == 0.0 <==> c.center == p.reference
  {
    Chebyshev(c.center, p.reference)
  }

  /** The gate test: close enough, and within the size bounds when those are on (`upper != 0.0`). */
  predicate Passes(c: Candidate, p: GateParams)
    ensures Passes(c, p) ==>
      Abs(c.center.row - p.reference.row) <= CENTER_SPEED && Abs(c.center.col - p.reference.col) <= CENTER_SPEED
  {
    Distance(c, p) <= CENTER_SPEED &&
    (p.upper != 0.0 ==> p.lower <= Size(c.pixels) as real <= p.upper)
  }

  /**
   * The gate passes a candidate exactly when its centroid is within
   * CENTER_SPEED of the stored center (tracking with a center stored) or of
   * the frame center (otherwise), both bounds inclusive, and, only when
   * tracking with a nonzero stored size s, its pixel count n satisfies
   * 0.75 s <= n <= 1.25 s, that is 3 s <= 4 n <= 5 s.
   */
  lemma PassesIff(c: Candidate, tracking: bool, center: Option<Point>, size: Option<nat>, ny: nat, nx: nat)
    ensures Passes(c, Params(tracking, center, size, ny, nx)) <==>
      && Chebyshev(c.center, if tracking && center.Some? then center.value else FrameCenter(ny, nx)) <= 100.0
      && (tracking && size.Some? && size.value > 0 ==>
            3 * size.value <= 4 * Size(c.pixels) <= 5 * size.value)
  {
    var p := Params(tracking, center, size, ny, nx);
    if tracking && size.Some? {
      var s, n := size.value as real, Size(c.pixels) as real;
      assert p.lower == 0.75 * s && p.upper == 1.25 * s;
      assert (0.75 * s <= n) <==> (3.0 * s <= 4.0 * n);
      assert (n <= 1.25 * s) <==> (4.0 * n <= 5.0 * s);
    }
  }

  /**
   * The gate loop as a function of the first k candidates: a passing
   * candidate replaces the current choice only when none was chosen yet or
   * it is strictly closer.
   */
  function Best(cands: seq<Candidate>, p: GateParams, k: nat): (w: Option<nat>)
    requires k <= |cands|
    ensures w.Some? ==> w.value < k
  {
    if k == 0 then None
    else
      var b := Best(cands, p, k - 1);
      if Passes(cands[k - 1], p) && (b.None? || Distance(cands[k - 1], p) < Distance(cands[b.value], p))
      then Some(k - 1)
      else b
  }

  /**
   * `w` is the first candidate among the first k that passes the gate at
   * minimal distance: it passes, no passing candidate is closer, and every
   * passing candidate before it is strictly farther.
   */
  ghost predicate IsWinner(cands: seq<Candidate>, p: GateParams, k: nat, w: nat)
    requires k <= |cands|
  {
    && w < k
    && Passes(cands[w], p)
    && (forall j :: 0 <= j < k && Passes(cands[j], p) ==> Distance(cands[w], p) <= Distance(cands[j], p))
    && (forall j :: 0 <= j < w && Passes(cands[j], p) ==> Distance(cands[w], p) < Distance(cands[j], p))
  }

  /** The loop picks nothing exactly when no candidate passes, and otherwise the first closest one. */
  lemma {:induction false} BestSpec(cands: seq<Candidate>, p: GateParams, k: nat)
    requires k <= |cands|
    ensures Best(cands, p, k).None? <==> forall j :: 0 <= j < k ==> !Passes(cands[j], p)
    ensures Best(cands, p, k).Some? ==> IsWinner(cands, p, k, Best(cands, p, k).value)
  {
    if k > 0 {
      BestSpec(cands, p, k - 1);
    }
  }

  /** The winner is determined by the gate alone: any first closest passing candidate is the one picked. */
  lemma BestUnique(cands: seq<Candidate>, p: GateParams, k: nat, w: nat)
    requires k <= |cands|
    requires IsWinner(cands, p, k, w)
    ensures Best(cands, p, k) == Some(w)
  {
    BestSpec(cands, p, k);
    var v := Best(cands, p, k).value;
    assert IsWinner(cands, p, k, v);
    assert Distance(cands[v], p) == Distance(cands[w], p);
  }

  /**
   * Continuity: once tracking has stored a winner's center and size, gating
   * the same candidates again picks a candidate at exactly that center, so
   * the stored center is a fixed point of the gate.
   */
  lemma RegateKeepsCenter(cands: seq<Candidate>, p: GateParams, ny: nat, nx: nat)
    requires Best(cands, p, |cands|).Some?
    ensures var w := Best(cands, p, |cands|).value;
      var q := Params(true, Some(cands[w].center), Some(Size(cands[w].pixels)), ny, nx);
      && Best(cands, q, |cands|).Some?
      && cands[Best(cands, q, |cands|).value].center == cands[w].center
  {
    var w := Best(cands, p, |cands|).value;
    var q := Params(true, Some(cands[w].center), Some(Size(cands[w].pixels)), ny, nx);
    assert Distance(cands[w], q) == 0.0;
    assert Passes(cands[w], q);
    BestSpec(cands, q, |cands|);
    var v := Best(cands, q, |cands|).value;
    assert Distance(cands[v], q) <= Distance(cands[w], q);
  }

  /** The tracker's state, shared between frames and updated by the gate. */
  class Tracker {
    /** Continuity-gated mode; set by the caller. */
    var tracking: bool
    /** Last accepted center, (row, col). */
    var trackedWormCenter: Option<Point>
    /** Last accepted pixel count. */
    var trackedWormSize: Option<nat>
    /** Whether some candidate passed the gate in the last frame. */
    var foundTrackedWorm: bool
    /** Last reported position, column and row. */
    var xWorm: int
    var yWorm: int

    constructor (tracking: bool)
      ensures this.tracking == tracking
      ensures trackedWormCenter == None && trackedWormSize == None
      ensures !foundTrackedWorm && xWorm == 0 && yWorm == 0
    {
      this.tracking := tracking;
      trackedWormCenter := None;
      trackedWormSize := None;
      foundTrackedWorm := false;
      xWorm, yWorm := 0, 0;
    }

    /** Records the reported position (column, row); nothing else changes. */
    method SetPosition(x: int, y: int)
      modifies this
      ensures xWorm == x && yWorm == y
      ensures tracking == old(tracking) && foundTrackedWorm == old(foundTrackedWorm)
      ensures trackedWormCenter == old(trackedWormCenter) && trackedWormSize == old(trackedWormSize)
    {
      xWorm, yWorm := x, y;
    }

    /** The gate parameters the current state selects for an ny x nx frame. */
    function CurrentParams(ny: nat, nx: nat): GateParams
      reads this
    {
      Params(tracking, trackedWormCenter, trackedWormSize, ny, nx)
    }

    /**
     * The gate: reset the found flag, then scan the candidates in list
     * order against the reference and bounds taken from the state on entry.
     * Returns the winner's mask. In tracking mode the winner's size and
     * center are stored; nothing else changes.
     */
    method Gate(cands: seq<Candidate>, ny: nat, nx: nat) returns (winner: Option<Grid<bool>>)
      modifies this
      ensures tracking == old(tracking) && xWorm == old(xWorm) && yWorm == old(yWorm)
      ensures foundTrackedWorm <==> exists j :: 0 <= j < |cands| && Passes(cands[j], old(CurrentParams(ny, nx)))
      ensures foundTrackedWorm <==> winner.Some?
      ensures match Best(cands, old(CurrentParams(ny, nx)), |cands|)
        case None =>
          winner == None && trackedWormCenter == old(trackedWormCenter) && trackedWormSize == old(trackedWormSize)
        case Some(w) =>
          && winner == Some(cands[w].pixels)
          && (tracking ==> trackedWormSize == Some(Size(cands[w].pixels)) && trackedWormCenter == Some(cands[w].center))
          && (!tracking ==> trackedWormCenter == old(trackedWormCenter) && trackedWormSize == old(trackedWormSize))
    {
      foundTrackedWorm := false;
      winner := None;
      var closest: Option<real> := None;
      if |cands| > 0 {
        var p := CurrentParams(ny, nx);
        for i := 0 to |cands|
          invariant p == old(CurrentParams(ny, nx))
          invariant tracking == old(tracking) && xWorm == old(xWorm) && yWorm == old(yWorm)
          invariant foundTrackedWorm <==> exists j :: 0 <= j < i && Passes(cands[j], p)
          invariant match Best(cands, p, i)
            case None =>
              && closest == None && winner == None
              && trackedWormCenter == old(trackedWormCenter) && trackedWormSize == old(trackedWormSize)
            case Some(w) =>
              && closest == Some(Distance(cands[w], p))
              && winner == Some(cands[w].pixels)
              && (tracking ==> trackedWormSize == Some(Size(cands[w].pixels)) && trackedWormCenter == Some(cands[w].center))
              && (!tracking ==> trackedWormCenter == old(trackedWormCenter) && trackedWormSize == old(trackedWormSize))
        {
          var size := Size(cands[i].pixels);
          var d := Chebyshev(cands[i].center, p.reference);
          var isCloseEnough := d <= CENTER_SPEED;
          if p.upper != 0.0 {
            isCloseEnough := isCloseEnough && p.lower <= size as real <= p.upper;
          }
          if isCloseEnough {
            foundTrackedWorm := true;
            if closest.None? || d < closest.value {
              closest := Some(d);
              winner := Some(cands[i].pixels);
              if tracking {
                trackedWormSize := Some(size);
                trackedWormCenter := Some(cands[i].center);
              }
            }
          }
        }
      }
      BestSpec(cands, old(CurrentParams(ny, nx)), |cands|);
    }
  }
}
