/**
 * CandidateExtractor: the part of `Detector.xy4x` that turns the object mask,
 * its label image and the per-label centroids into the list of candidates.
 * The labelling itself is a library routine; its label image and centroids
 * are inputs.
 */
module Candidates {
  import opened Frames

  /** A candidate region: its pixel mask and its centroid in (row, col) order. */
  datatype Candidate = Candidate(pixels: Grid<bool>, center: Point)

  /** Every label lies in 0 .. n-1, as the labelling routine promises. */
  ghost predicate WellLabelled(labels: Grid<int>, n: nat)
  {
    forall r, c :: InGrid(labels, r, c) ==> 0 <= labels[r][c] < n
  }

  ghost predicate Increasing(s: seq<int>)
  {
    forall i, j :: 0 <= i < j < |s| ==> s[i] < s[j]
  }

  /** `labels == v`: the pixels carrying label `v`. */
  function LabelMask(labels: Grid<int>, v: int): (m: Grid<bool>)
    ensures |m| == |labels| && forall r :: 0 <= r < |m| ==> |m[r]| == |labels[r]|
    ensures forall r, c :: InGrid(labels, r, c) ==> (m[r][c] <==> labels[r][c] == v)
  {
    seq(|labels|, r requires 0 <= r < |labels| =>
      seq(|labels[r]|, c requires 0 <= c < |labels[r]| => labels[r][c] == v))
  }

  predicate Occurs(labels: Grid<int>, v: int)
  {
    exists r, c :: 0 <= r < |labels| && 0 <= c < |labels[r]| && labels[r][c] == v
  }

  /** Labels seen at some pixel outside the mask: all of them count as background. */
  function Background(mask: Grid<bool>, labels: Grid<int>): set<int>
  {
    set r, c | 0 <= r < |mask| && 0 <= c < |mask[r]| && r < |labels| && c < |labels[r]| && !mask[r][c] :: labels[r][c]
  }

  /** A label is emitted when it is not background and covers at least SMALLEST_TRACKING_OBJECT pixels. */
  predicate Eligible(mask: Grid<bool>, labels: Grid<int>, v: int)
  {
    v !in Background(mask, labels) && Size(LabelMask(labels, v)) >= SMALLEST_TRACKING_OBJECT
  }

  /** The distinct labels below `n` that occur, ascending (`np.unique` of a well-labelled image). */
  function Unique(labels: Grid<int>, n: nat): (vs: seq<int>)
    ensures |vs| <= n
    ensures Increasing(vs)
    ensures forall v :: v in vs <==> 0 <= v < n && Occurs(labels, v)
  {
    if n == 0 then []
    else
      var prev := Unique(labels, n - 1);
      assert forall i :: 0 <= i < |prev| ==> prev[i] in prev;
      prev + (if Occurs(labels, n - 1) then [n - 1] else [])
  }

  /** The labels of `vs`, in order, that survive the two tests of the scan. */
  function Keep(mask: Grid<bool>, labels: Grid<int>, vs: seq<int>): (ks: seq<int>)
    ensures forall v :: v in ks <==> v in vs && Eligible(mask, labels, v)
  {
    if vs == [] then []
    else
      var ks := Keep(mask, labels, vs[..|vs| - 1]);
      assert vs[..|vs| - 1] + [vs[|vs| - 1]] == vs;
      ks + (if Eligible(mask, labels, vs[|vs| - 1]) then [vs[|vs| - 1]] else [])
  }

  /** Keep preserves ascending order. */
  lemma {:induction false} KeepIncreasing(mask: Grid<bool>, labels: Grid<int>, vs: seq<int>)
    requires Increasing(vs)
    ensures Increasing(Keep(mask, labels, vs))
  {
    if vs != [] {
      var init, last := vs[..|vs| - 1], vs[|vs| - 1];
      KeepIncreasing(mask, labels, init);
      var ks := Keep(mask, labels, init);
      forall i | 0 <= i < |ks|
        ensures ks[i] < last
      {
        assert ks[i] in ks;
        var j :| 0 <= j < |init| && init[j] == ks[i];
        assert vs[j] == ks[i];
      }
    }
  }

  /** The labels the scan emits, in emission order. */
  function Emitted(mask: Grid<bool>, labels: Grid<int>, n: nat): seq<int>
  {
    Keep(mask, labels, Unique(labels, n))
  }

  /** The candidate built from label `v`: its pixels and its flipped centroid. */
  function CandidateOf(labels: Grid<int>, centroids: seq<XY>, v: int): Candidate
    requires 0 <= v < |centroids|
  {
    Candidate(LabelMask(labels, v), Flip(centroids[v]))
  }

  function CandidatesOf(labels: Grid<int>, centroids: seq<XY>, vs: seq<int>): seq<Candidate>
    requires forall v :: v in vs ==> 0 <= v < |centroids|
  {
    seq(|vs|, k requires 0 <= k < |vs| => assert vs[k] in vs; CandidateOf(labels, centroids, vs[k]))
  }

  /** The candidate list the extraction produces. */
  function Extracted(mask: Grid<bool>, labels: Grid<int>, centroids: seq<XY>): seq<Candidate>
  {
    CandidatesOf(labels, centroids, Emitted(mask, labels, |centroids|))
  }

  /**
   * Emitted labels are strictly ascending, and a label is emitted exactly
   * when it lies below the label count, occurs at no pixel outside the mask
   * and covers at least SMALLEST_TRACKING_OBJECT pixels.
   */
  lemma EmittedSpec(mask: Grid<bool>, labels: Grid<int>, n: nat)
    ensures Increasing(Emitted(mask, labels, n))
    ensures forall v :: v in Emitted(mask, labels, n) <==>
      0 <= v < n && v !in Background(mask, labels) && Size(LabelMask(labels, v)) >= SMALLEST_TRACKING_OBJECT
  {
    KeepIncreasing(mask, labels, Unique(labels, n));
    forall v | 0 <= v < n && Eligible(mask, labels, v)
      ensures Occurs(labels, v)
    {
      SizePositive(LabelMask(labels, v));
    }
  }

  /**
   * Each extracted candidate is the label mask `labels == v` of an emitted
   * label `v`, with at least SMALLEST_TRACKING_OBJECT pixels, and carries the
   * centroid of that same label, flipped to (row, col).
   */
  lemma ExtractedSpec(mask: Grid<bool>, labels: Grid<int>, centroids: seq<XY>, k: int)
    requires 0 <= k < |Extracted(mask, labels, centroids)|
    ensures var v := Emitted(mask, labels, |centroids|)[k];
      && 0 <= v < |centroids|
      && Extracted(mask, labels, centroids)[k] == Candidate(LabelMask(labels, v), Flip(centroids[v]))
      && Size(Extracted(mask, labels, centroids)[k].pixels) >= SMALLEST_TRACKING_OBJECT
      && v !in Background(mask, labels)
  {
    var e := Emitted(mask, labels, |centroids|);
    assert e[k] in e;
  }

  /**
   * The scan of `xy4x`: walk the distinct labels in ascending order, skip
   * background labels, and append a candidate for each label with at least
   * SMALLEST_TRACKING_OBJECT pixels. The centroid is the label's own one.
   */
  method Extract(mask: Grid<bool>, labels: Grid<int>, centroids: seq<XY>) returns (cands: seq<Candidate>)
    requires WellLabelled(labels, |centroids|)
    ensures cands == Extracted(mask, labels, centroids)
  {
    var values := Unique(labels, |centroids|);
    var background := Background(mask, labels);
    cands := [];
    for i := 0 to |values|
      invariant forall v :: v in Keep(mask, labels, values[..i]) ==> 0 <= v < |centroids|
      invariant cands == CandidatesOf(labels, centroids, Keep(mask, labels, values[..i]))
    {
      var v := values[i];
      assert v in values;
      KeepSnoc(mask, labels, values, i);
      ghost var before := Keep(mask, labels, values[..i]);
      if v in background {
        continue;
      }
      var count := Size(LabelMask(labels, v));
      if count >= SMALLEST_TRACKING_OBJECT {
        CandidatesOfSnoc(labels, centroids, before, v);
        cands := cands + [CandidateOf(labels, centroids, v)];
      }
    }
    assert values[..|values|] == values;
  }

  lemma KeepSnoc(mask: Grid<bool>, labels: Grid<int>, vs: seq<int>, i: nat)
    requires i < |vs|
    ensures Keep(mask, labels, vs[..i + 1]) ==
      Keep(mask, labels, vs[..i]) + (if Eligible(mask, labels, vs[i]) then [vs[i]] else [])
  {
    assert vs[..i + 1][..i] == vs[..i];
  }

  lemma CandidatesOfSnoc(labels: Grid<int>, centroids: seq<XY>, vs: seq<int>, v: int)
    requires forall w :: w in vs ==> 0 <= w < |centroids|
    requires 0 <= v < |centroids|
    ensures forall w :: w in vs + [v] ==> 0 <= w < |centroids|
    ensures CandidatesOf(labels, centroids, vs + [v]) == CandidatesOf(labels, centroids, vs) + [CandidateOf(labels, centroids, v)]
  {
  }

  // ----- The scan as written: centroids paired by position -----

  /**
   * `zip(label_values, label_counts, centroids)` keeps the first `m` pairs
   * and takes the k-th centroid row for the k-th distinct label, whatever
   * that label is.
   */
  function ZipKeep(mask: Grid<bool>, labels: Grid<int>, values: seq<int>, centroids: seq<XY>, m: nat): seq<Candidate>
    requires m <= |values| && m <= |centroids|
  {
    if m == 0 then []
    else
      ZipKeep(mask, labels, values, centroids, m - 1) +
      (if Eligible(mask, labels, values[m - 1])
       then [Candidate(LabelMask(labels, values[m - 1]), Flip(centroids[m - 1]))]
       else [])
  }

  /** The extraction exactly as the loop is written. */
  function ExtractAsWritten(mask: Grid<bool>, labels: Grid<int>, centroids: seq<XY>): seq<Candidate>
  {
    var values := Unique(labels, |centroids|);
    ZipKeep(mask, labels, values, centroids, if |values| < |centroids| then |values| else |centroids|)
  }

  lemma {:induction false} UniqueAll(labels: Grid<int>, n: nat)
    requires forall v :: 0 <= v < n ==> Occurs(labels, v)
    ensures Unique(labels, n) == seq(n, i => i)
  {
    if n > 0 {
      UniqueAll(labels, n - 1);
      assert Occurs(labels, n - 1);
    }
  }

  /**
   * One step of the corrected scan over the prefix `values[..m]`, `m == i + 1`:
   * the candidate list grows by the candidate of `values[i]` when it is kept.
   */
  lemma CandidatesOfKeepSnoc(mask: Grid<bool>, labels: Grid<int>, values: seq<int>, centroids: seq<XY>, i: nat, m: nat)
    requires m == i + 1 && m <= |values|
    requires forall v :: v in values[..m] ==> 0 <= v < |centroids|
    ensures forall w :: w in Keep(mask, labels, values[..i]) ==> 0 <= w < |centroids|
    ensures forall w :: w in Keep(mask, labels, values[..m]) ==> 0 <= w < |centroids|
    ensures CandidatesOf(labels, centroids, Keep(mask, labels, values[..m])) ==
      CandidatesOf(labels, centroids, Keep(mask, labels, values[..i])) +
      (if Eligible(mask, labels, values[i]) then [CandidateOf(labels, centroids, values[i])] else [])
  {
    KeepSnoc(mask, labels, values, i);
    assert values[..m][i] == values[i];
    forall w | w in values[..i]
      ensures w in values[..m]
    {
      var k :| 0 <= k < i && values[..i][k] == w;
      assert values[..m][k] == w;
    }
    var before := Keep(mask, labels, values[..i]);
    if Eligible(mask, labels, values[i]) {
      CandidatesOfSnoc(labels, centroids, before, values[i]);
    }
  }

  /** A prefix of the labels 0, 1, 2, ... of length at most |centroids| indexes `centroids`. */
  lemma AlignedPrefixInRange(values: seq<int>, centroids: seq<XY>, m: nat)
    requires m <= |values| <= |centroids|
    requires forall k :: 0 <= k < |values| ==> values[k] == k
    ensures forall v :: v in values[..m] ==> 0 <= v < |centroids|
  {
    forall v | v in values[..m]
      ensures 0 <= v < |centroids|
    {
      var k :| 0 <= k < m && values[..m][k] == v;
      assert values[k] == k;
    }
  }

  lemma {:induction false} ZipKeepAligned(mask: Grid<bool>, labels: Grid<int>, values: seq<int>, centroids: seq<XY>, m: nat)
    requires m <= |values| <= |centroids|
    requires forall k :: 0 <= k < |values| ==> values[k] == k
    ensures forall v :: v in values[..m] ==> 0 <= v < |centroids|
    ensures ZipKeep(mask, labels, values, centroids, m) == CandidatesOf(labels, centroids, Keep(mask, labels, values[..m]))
  {
    AlignedPrefixInRange(values, centroids, m);
    if m > 0 {
      ZipKeepAligned(mask, labels, values, centroids, m - 1);
      CandidatesOfKeepSnoc(mask, labels, values, centroids, m - 1, m);
      assert values[m - 1] == m - 1;
    }
  }

  /** When every label 0 .. n-1 occurs, pairing by position is pairing by label. */
  lemma AsWrittenAgreesWhenAllLabelsOccur(mask: Grid<bool>, labels: Grid<int>, centroids: seq<XY>)
    requires WellLabelled(labels, |centroids|)
    requires forall v :: 0 <= v < |centroids| ==> Occurs(labels, v)
    ensures ExtractAsWritten(mask, labels, centroids) == Extracted(mask, labels, centroids)
  {
    var n := |centroids|;
    var values := Unique(labels, n);
    UniqueAll(labels, n);
    assert |values| == n;
    assert forall k :: 0 <= k < |values| ==> values[k] == k;
    ZipKeepAligned(mask, labels, values, centroids, n);
    assert values[..n] == values;
    assert ExtractAsWritten(mask, labels, centroids) == ZipKeep(mask, labels, values, centroids, n);
    assert Extracted(mask, labels, centroids) == CandidatesOf(labels, centroids, Keep(mask, labels, values));
  }

  /** An image labelled 1 everywhere has the single label 1 among 0 and 1. */
  lemma UniqueAllOne(labels: Grid<int>, ny: nat, nx: nat)
    requires IsGrid(labels, ny, nx) && ny > 0 && nx > 0
    requires forall r, c :: InGrid(labels, r, c) ==> labels[r][c] == 1
    ensures Unique(labels, 2) == [1]
  {
    assert InGrid(labels, 0, 0);
    assert Occurs(labels, 1);
    assert !Occurs(labels, 0);
    assert Unique(labels, 1) == [];
  }

  /** With the whole frame in the mask and labelled 1, label 1 survives both tests. */
  lemma EligibleAllOne(mask: Grid<bool>, labels: Grid<int>, ny: nat, nx: nat)
    requires IsGrid(mask, ny, nx) && IsGrid(labels, ny, nx)
    requires ny * nx >= SMALLEST_TRACKING_OBJECT
    requires forall r, c :: InGrid(mask, r, c) ==> mask[r][c]
    requires forall r, c :: InGrid(labels, r, c) ==> labels[r][c] == 1
    ensures Eligible(mask, labels, 1)
  {
    assert 1 !in Background(mask, labels);
    SizeAllTrue(LabelMask(labels, 1), ny, nx);
  }

  /**
   * A frame that is foreground everywhere: the labelling gives every pixel
   * label 1 and reports two labels (the empty background label 0 and the
   * frame). Label 0 never occurs, so the zip pairs label 1 with centroid row
   * 0, the background's; the corrected scan uses row 1.
   */
  lemma AsWrittenMisplacesCentroid(mask: Grid<bool>, labels: Grid<int>, ny: nat, nx: nat, c0: XY, c1: XY)
    requires IsGrid(mask, ny, nx) && IsGrid(labels, ny, nx)
    requires ny * nx >= SMALLEST_TRACKING_OBJECT
    requires forall r, c :: InGrid(mask, r, c) ==> mask[r][c]
    requires forall r, c :: InGrid(labels, r, c) ==> labels[r][c] == 1
    ensures ExtractAsWritten(mask, labels, [c0, c1]) == [Candidate(LabelMask(labels, 1), Flip(c0))]
    ensures Extracted(mask, labels, [c0, c1]) == [Candidate(LabelMask(labels, 1), Flip(c1))]
  {
    UniqueAllOne(labels, ny, nx);
    EligibleAllOne(mask, labels, ny, nx);
    assert Keep(mask, labels, [1]) == [1] by {
      assert [1][..0] == [];
    }
    assert ExtractAsWritten(mask, labels, [c0, c1]) == ZipKeep(mask, labels, [1], [c0, c1], 1);
    assert Emitted(mask, labels, 2) == [1];
    assert CandidatesOf(labels, [c0, c1], [1]) == [CandidateOf(labels, [c0, c1], 1)];
  }
}
