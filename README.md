# OpenAutoScope-v2 tracker tools, modelled in Dafny

This project models the per-frame object localisation of OpenAutoScope-v2's
`tracker_tools.py`. In the `4x` pipeline a camera frame is thresholded into a
foreground mask. Connected regions that are too small are removed, and
candidate regions are extracted. A gate then picks the candidate that
continues the track. The reported position is the midpoint of the bounding
box of the winner's slightly grown mask. In the `10x` pipeline an external
point detector looks at a cropped frame instead.

The modules follow the program's structure:

- `Frames` (`frames.dfy`): grids, masks, pixel counts (`mask.sum()`), and
  the two coordinate orders. The labelling routine reports centroids as
  (x, y); everything else uses (row, col).
- `Segmenter` (`segmenter.dfy`): the Otsu-derived threshold, the foreground
  predicate, and the in-place size filter over a label array.
- `Candidates` (`candidates.dfy`): candidate extraction from the mask,
  the label image and the per-label centroids. It also holds the scan as
  written, where centroids are paired by position (see Findings).
- `TrackGate` (`track_gate.dfy`): the gate and the tracker's persistent
  state, as a `Tracker` class whose `Gate` method runs the loop.
- `BoundingBox` (`bounding_box.dfy`): the blur-and-threshold softening of
  the winner mask, `np.where`, `minmax`, and the box midpoint.
- `TrackerTools` (`tracker_tools.dfy`): the `Detector` class with `Xy4x`
  and `Xy10x`.

Several library routines are inputs rather than code:

- Otsu's value.
- The box blur of the intensity frame.
- The erosion and the dilation.
- The connected-component labelling: label image, areas and centroids.
- The point-detection network.

Centroids, the frame center and the size bounds are exact rationals
(`real`). `blur(mask) > 1e-4` on a 0/1 mask becomes `Dilate`, because the
mean over a 5x5 window is either 0 or at least 1/25. `Dilate` sets every
frame pixel within two rows and two columns of a set pixel.

The size filter drops areas of at most 200 pixels (line 113), while the
scan keeps counts of at least 200 (line 40). A region of exactly 200 pixels
is therefore dropped by the filter. Both comparisons are modelled as written.

## Model

| member | source | states |
|---|---|---|
| Segmenter.Threshold | openautoscopev2/devices/tracker_tools.py:27 | the threshold is 1.2 times Otsu's value when that exceeds 50 and exactly 110 otherwise; it always exceeds 60 |
| Segmenter.ThresholdNotMonotone | openautoscopev2/devices/tracker_tools.py:27 | the threshold is not monotone in Otsu's value: 110 at 50, 61.2 at 51, and below 110 for every value strictly between 50 and 110 / 1.2 |
| Segmenter.ThresholdAtLeastOtsu | openautoscopev2/devices/tracker_tools.py:27 | for a nonnegative Otsu value the threshold is never below it |
| Segmenter.Foreground | openautoscopev2/devices/tracker_tools.py:107 | the mask has the frame's shape, and a pixel is foreground iff its blurred intensity is strictly below the threshold |
| Segmenter.OtsuDarkIsForeground | openautoscopev2/devices/tracker_tools.py:107 | a pixel darker than Otsu's value is foreground; a pixel at or above the threshold never is |
| Segmenter.ZeroLabel | openautoscopev2/devices/tracker_tools.py:114-115 | every pixel carrying the label becomes 0 in place, and every other pixel keeps its value |
| Segmenter.Survivor | openautoscopev2/devices/tracker_tools.py:111-115 | the label a pixel ends with after the whole filter: 0 when its label has an area of at most 200, its own label otherwise (labels outside the area table are kept); SizeFilter states that the in-place loop leaves exactly this label at every pixel |
| Segmenter.SizeFilter | openautoscopev2/devices/tracker_tools.py:111-116 | each pixel keeps its label unless that label's area is at most 200 (then it is 0); the mask is `labels > 0`; a pixel is in the mask iff its old label is nonzero with area above 200 |
| Frames.Size | openautoscopev2/devices/tracker_tools.py:54 | `mask.sum()`, the number of set pixels; SizePositive and SizeAllTrue state its properties |
| Frames.Flip | openautoscopev2/devices/tracker_tools.py:33 | `centroids[:, ::-1]`: an (x, y) centroid becomes the point (row, col) = (y, x); ExtractedSpec states that each candidate carries its label's flipped centroid |
| Frames.SizePositive | openautoscopev2/devices/tracker_tools.py:54 | a mask with a positive pixel count has a set pixel |
| Frames.RowCountAllTrue | openautoscopev2/devices/tracker_tools.py:54 | a row of `mask.sum()` with every pixel set counts its full length |
| Frames.SizeAllTrue | openautoscopev2/devices/tracker_tools.py:54 | `mask.sum()` of an all-set ny x nx mask is ny*nx |
| Candidates.LabelMask | openautoscopev2/devices/tracker_tools.py:42 | the candidate's pixels are exactly the pixels whose label equals the value |
| Candidates.Unique | openautoscopev2/devices/tracker_tools.py:35 | the distinct labels are strictly ascending and are exactly the labels that occur |
| Candidates.Background | openautoscopev2/devices/tracker_tools.py:29-34 | the set of labels seen at some pixel outside the mask; EmittedSpec states that no emitted label is in it |
| Candidates.Eligible | openautoscopev2/devices/tracker_tools.py:38-40 | a label passes the two tests of the scan: not background, and at least 200 pixels; Keep and EmittedSpec state what it selects |
| Candidates.Keep | openautoscopev2/devices/tracker_tools.py:37-44 | a label survives the scan iff it is not background and covers at least 200 pixels |
| Candidates.KeepIncreasing | openautoscopev2/devices/tracker_tools.py:35-44 | the scan keeps the ascending order of the labels |
| Candidates.Emitted | openautoscopev2/devices/tracker_tools.py:35-40 | the labels the scan emits, in emission order: the distinct labels kept by the two tests; EmittedSpec states that they ascend and which labels they are |
| Candidates.EmittedSpec | openautoscopev2/devices/tracker_tools.py:29-44 | emitted labels ascend, and a label is emitted iff it is a valid label that occurs at no pixel outside the mask and covers at least 200 pixels |
| Candidates.ExtractedSpec | openautoscopev2/devices/tracker_tools.py:33-44 | the k-th candidate is `labels == v` for the k-th emitted label v, has at least 200 pixels, and carries v's own centroid flipped to (row, col) |
| Candidates.Extracted | openautoscopev2/devices/tracker_tools.py:36-44 | `candidates_info`, the candidates of the emitted labels in order, each with its own centroid; ExtractedSpec states what each entry is and Extract states that the loop builds exactly this list |
| Candidates.Extract | openautoscopev2/devices/tracker_tools.py:29-44 | the loop over the distinct labels appends exactly the candidates of the emitted labels, in order |
| Candidates.ZipKeep | openautoscopev2/devices/tracker_tools.py:37-44 | the scan as written over the first m zipped triples: the k-th distinct label is paired with the k-th centroid row; AsWrittenAgreesWhenAllLabelsOccur and AsWrittenMisplacesCentroid state its behaviour |
| Candidates.ExtractAsWritten | openautoscopev2/devices/tracker_tools.py:35-44 | the extraction as written, zipping the distinct labels with the centroid rows up to the shorter length; the as-written half of the Findings row |
| Candidates.AsWrittenAgreesWhenAllLabelsOccur | openautoscopev2/devices/tracker_tools.py:35-37 | when every label 0 .. n-1 occurs, pairing centroids by position equals pairing them by label |
| Candidates.AsWrittenMisplacesCentroid | openautoscopev2/devices/tracker_tools.py:35-43 | on an all-foreground frame the scan as written gives label 1 the background's centroid, and the corrected scan gives it its own |
| TrackGate.Chebyshev | openautoscopev2/devices/tracker_tools.py:55 | the distance is the larger per-axis offset: at least both, equal to one, and 0 iff the points coincide |
| TrackGate.FrameCenter | openautoscopev2/devices/tracker_tools.py:50 | the frame center `(ny/2, nx/2)` with true division: twice each coordinate is the frame's extent |
| TrackGate.Params | openautoscopev2/devices/tracker_tools.py:49-52 | the reference is the frame center unless tracking with a stored center; the size gate is off (upper bound 0.0) exactly when not tracking, with no stored size or a stored size of 0; otherwise the bounds are 0.75 and 1.25 times the stored size, in ratio 3 : 5 and centred on it |
| TrackGate.Distance | openautoscopev2/devices/tracker_tools.py:55 | the Chebyshev distance of the candidate's centroid from the reference: nonnegative, and 0 exactly at the reference |
| TrackGate.Passes | openautoscopev2/devices/tracker_tools.py:56-58 | the gate test: distance at most 100 and, when the upper bound is nonzero, size within the inclusive bounds; a passing centroid is within 100 of the reference on each axis; PassesIff gives the test in terms of the track state |
| TrackGate.PassesIff | openautoscopev2/devices/tracker_tools.py:49-58 | a candidate passes iff it is within 100 of the stored center (tracking with one stored) or of the frame center; when tracking with a stored size s > 0, also iff 3s ≤ 4n ≤ 5s, both bounds inclusive |
| TrackGate.Best | openautoscopev2/devices/tracker_tools.py:53-63 | the index the loop selects among the first k candidates is below k |
| TrackGate.BestSpec | openautoscopev2/devices/tracker_tools.py:53-63 | nothing is selected iff no candidate passes; otherwise the selected candidate passes, no passing candidate is closer, and every earlier passing candidate is strictly farther |
| TrackGate.BestUnique | openautoscopev2/devices/tracker_tools.py:61-63 | the first closest passing candidate is the one that is selected |
| TrackGate.RegateKeepsCenter | openautoscopev2/devices/tracker_tools.py:49-66 | gating the same candidates again against the just-stored center and size selects a candidate at exactly that center |
| TrackGate.Tracker.constructor | openautoscopev2/devices/tracker_tools.py:49-50 | a fresh tracker has no stored center or size, the `None` case these lines read; its found flag and position start false and (0, 0), an assumed initial state |
| TrackGate.Tracker.Gate | openautoscopev2/devices/tracker_tools.py:45-66 | the found flag is reset and ends true iff some candidate passes the parameters taken on entry; the returned mask is the selected candidate's; when tracking, the selected candidate's size and center are stored; otherwise they are unchanged, as are the reported position and the mode |
| TrackGate.Tracker.SetPosition | openautoscopev2/devices/tracker_tools.py:76-77 | the reported position is written, and nothing else changes |
| BoundingBox.Dilate | openautoscopev2/devices/tracker_tools.py:69-72 | the softened mask has the mask's shape, sets a pixel iff a set pixel lies within two rows and two columns in the frame, and keeps every set pixel |
| BoundingBox.Where | openautoscopev2/devices/tracker_tools.py:73 | `np.where` of the softened mask: the set pixels in row-major order; WhereFrom states that the list holds exactly the set pixels, and RowsOfWhere and ColsOfWhere what its rows and columns are |
| BoundingBox.Rows | openautoscopev2/devices/tracker_tools.py:73 | `ys`, the row of each listed pixel: as many entries as pixels, entry k the row of pixel k |
| BoundingBox.Cols | openautoscopev2/devices/tracker_tools.py:73 | `xs`, the column of each listed pixel: as many entries as pixels, entry k the column of pixel k |
| BoundingBox.WhereFrom | openautoscopev2/devices/tracker_tools.py:73 | the listed coordinates are exactly the set pixels from row r on |
| BoundingBox.MinMax | openautoscopev2/devices/tracker_tools.py:102-103 | both results occur in the array, and they bound every element from below and above |
| BoundingBox.MinIs | openautoscopev2/devices/tracker_tools.py:102-103 | an element below or equal to all others is the minimum returned |
| BoundingBox.MaxIs | openautoscopev2/devices/tracker_tools.py:102-103 | an element above or equal to all others is the maximum returned |
| BoundingBox.RowsOfWhere | openautoscopev2/devices/tracker_tools.py:73 | a row is listed iff it holds a set pixel |
| BoundingBox.ColsOfWhere | openautoscopev2/devices/tracker_tools.py:73 | a column is listed iff it holds a set pixel |
| BoundingBox.BoxOf | openautoscopev2/devices/tracker_tools.py:73-75 | `minmax` of the rows and of the columns of the set pixels of a nonempty mask; BoxSpec states that it is the tightest enclosing box |
| BoundingBox.BoxSpec | openautoscopev2/devices/tracker_tools.py:73-75 | the box of a nonempty mask encloses every set pixel, and each of its four sides touches one |
| BoundingBox.BoxOfDilate | openautoscopev2/devices/tracker_tools.py:69-75 | the box of the softened mask is the mask's own box grown by two pixels on every side and clipped to the frame |
| BoundingBox.ReportedPoint | openautoscopev2/devices/tracker_tools.py:68-77 | the reported (x, y) is the floor midpoint of the mask's box grown by two pixels and clipped |
| BoundingBox.ReportedPointSpec | openautoscopev2/devices/tracker_tools.py:74-77 | the reported point lies within the grown box, and that box encloses every pixel of the winner mask |
| BoundingBox.Midpoint | openautoscopev2/devices/tracker_tools.py:76-77 | `(lo + hi) // 2`, floor division: twice the result is lo + hi or one less |
| BoundingBox.MidpointWithin | openautoscopev2/devices/tracker_tools.py:76-77 | `(lo + hi) // 2` lies in [lo, hi] |
| TrackerTools.CroppedLength | openautoscopev2/devices/tracker_tools.py:86 | the length of `a[56:-56]`: 112 shorter, or 0 when the axis is at most 112 long; Crop states the cropped frame has this shape and ToFrameInverts what a point in it addresses |
| TrackerTools.Crop | openautoscopev2/devices/tracker_tools.py:86 | the cropped frame is 112 pixels shorter on each axis (empty if the frame is smaller), and pixel (i, j) is the frame's (i + 56, j + 56) |
| TrackerTools.Trunc | openautoscopev2/devices/tracker_tools.py:94 | `astype(int64)` truncates toward zero on both signs |
| TrackerTools.ToFrame | openautoscopev2/devices/tracker_tools.py:94 | the detector's (x, y) truncated toward zero and shifted by 56 on both axes; ToFrameInverts states what the shifted point addresses |
| TrackerTools.ToFrameInverts | openautoscopev2/devices/tracker_tools.py:86-94 | a detector answer inside the cropped frame maps to a frame point at least 56 pixels from every edge, at the very pixel the detector pointed at |
| TrackerTools.WinnerMask | openautoscopev2/devices/tracker_tools.py:40-63 | the mask the gate picks has the frame's shape and is nonempty |
| TrackerTools.Detector.constructor | openautoscopev2/devices/tracker_tools.py:20-21 | the detector works on the tracker it is given |
| TrackerTools.Detector.Xy4x | openautoscopev2/devices/tracker_tools.py:29-77 | found iff some extracted candidate passes the gate on entry; when none passes, the stored center, size and position are unchanged; otherwise the winner is nonempty, the position is the midpoint of its box grown by two pixels and clipped, and the center and size are stored exactly when tracking |
| TrackerTools.Detector.Xy10x | openautoscopev2/devices/tracker_tools.py:84-94 | found is set, the position is the detector's answer on the cropped frame, truncated and shifted by 56, and the tracked center, size and mode are unchanged |

## Left out

- Otsu's threshold (line 26), the box blur of the frame, the erosion and the dilation (lines 106-109) are library filters. Their results are inputs, because their border and float semantics are not in the source.
- BoundingBox.Dilate: the blur of the winner mask (lines 69-72) is modelled under an assumed border rule. Outside the frame the 5x5 window is filled with zeros or with copies of frame pixels within two rows and two columns. OpenCV's default reflection is such a rule, but the source does not show which rule is used.
- The connected-component labelling (lines 30 and 110) is a library routine. Its label image, areas and centroids are inputs. `Extract` requires the labels to lie in 0 .. n-1 for n centroids, as the routine promises. `SizeFilter` takes the areas as given.
- The network session and its inference (lines 22 and 92) are foreign calls. `Xy10x` takes the network as a function parameter; the repetition into three channels and the float conversion are not modelled.
- Drawing the annotation (lines 79-80 and 96-98) only draws overlays and is not modelled. `img_annotated` is used before it is assigned, so `xy4x` raises there; the model stops after the position update. The return value is not modelled.
- The misspelt `connectedComponentWithStats` with its three-value unpacking (line 110) is modelled as the intended labelling call, whose areas feed the size filter.
- `xy10x` writes `found_trackedworm`, `x_worm` and `y_worm` on the detector itself (lines 85 and 94). The model writes them on the tracker, as `xy4x` does.
- `Xy4x` starts from the foreground mask, the label image and the centroids (line 29 on); it takes them as inputs. Chaining it to `SizeFilter` would need the labelling routine, which is not part of this model.
- Floating-point rounding is not modelled: centroids, the frame center `ny/2`, the 0.75 and 1.25 bounds and the distances are exact rationals. The blurred frame's intensities are integers, as `cv.blur` of an 8-bit frame gives.
- TrackGate.Tracker.constructor: the tracker class is defined outside this file, so its initial state is assumed. The assumed state has no stored center or size, found false and position (0, 0).
- The tracker class itself is not part of this model. `Tracker` holds only the six fields the functions read and write, and `Tracker.SetPosition` stands for the two field writes at lines 76-77.

## Findings

| source | as written | input that shows it | evidently intended | confidence | as-written member | corrected member |
|---|---|---|---|---|---|---|
| openautoscopev2/devices/tracker_tools.py:35-37 | `zip(label_values, label_counts, centroids)` pairs the k-th distinct label with the k-th centroid row | a frame that is foreground everywhere: every pixel gets label 1, the labelling reports two labels (0 and 1), and label 0 never occurs, so label 1 is paired with centroid row 0, the background's | each candidate carries its own label's centroid, `centroids[label_value]` | not executed | Candidates.AsWrittenMisplacesCentroid | Candidates.Extract |
