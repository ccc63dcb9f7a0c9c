/**
  Stacking: the shifted patches of the best frames are added into
  per-alignment-point buffers, the buffers are merged into one image with
  the blending weights, the image is normalised by the accumulated weights,
  blended with a background image where the patches leave holes, and
  trimmed by the widest border the warp shifts left incomplete. Alongside,
  a histogram of the warp-shift lengths and a failure counter are kept.

  Monochrome buffers only; values are exact reals. The frames are given
  already drizzled, the local warp shifts already measured.
*/
module StackFrames {
  import opened Weights
  import opened Grids
  import opened ShiftStatistics
  import opened BackgroundTiles

  datatype Option<T> = None | Some(value: T)

  /** The outcome of a step that indexes the shift histogram: numpy raises
      an IndexError for a bucket past its end. */
  datatype Outcome = Pass | IndexError

  /** Widths of the image borders where the warp shifts left some patch
      incomplete. */
  datatype Borders = Borders(yLow: nat, yHigh: nat, xLow: nat, xHigh: nat)

  /** The value the weight buffer starts with, so that it is never 0. */
  const InitialWeight: real := 1.0e-30
  /** A pixel whose accumulated weight is below this is a stacking hole. */
  const HoleThreshold: real := 1.0e-10

  function Max(a: nat, b: nat): nat
  {
    if a <= b then b else a
  }

  /** How far the range [low, high) shifted by shift reaches below 0 and
      beyond size. */
  function OvershootLow(low: int, shift: int): nat
  {
    if low + shift < 0 then -(low + shift) else 0
  }

  function OvershootHigh(high: int, shift: int, size: nat): nat
  {
    if high + shift > size then high + shift - size else 0
  }

  /** The shifted patch [low + shift, high + shift) meets [0, size) along
      an axis or touches one of its ends. A patch that only touches an end
      takes no pixel from the frame, and its whole height (or width) is an
      overshoot. */
  predicate Overlaps(low: nat, high: nat, shift: int, size: nat)
  {
    low <= high && low + shift <= size && high + shift >= 0
  }

  /** The value a shifted patch contributes at buffer cell (i, j): the
      frame pixel at (i + low + shift) when that pixel exists, else 0. */
  function ShiftedPixel(frame: seq<seq<real>>, i: int, j: int, y0: int, x0: int): real
  {
    if 0 <= i + y0 < |frame| && 0 <= j + x0 < |frame[i + y0]| then frame[i + y0][j + x0] else 0.0
  }

  /** Drizzled alignment points, all placed inside the drizzled image. */
  predicate AllWellPlaced(aps: seq<AlignmentPoint>, dimY: nat, dimX: nat)
  {
    forall a :: 0 <= a < |aps| ==> WellPlaced(aps[a], dimY, dimX)
  }

  /** The weight of cell (y, x) after the alignment points' weights ws for
      a stack of stackSize frames were added to the initial weight. */
  function AccumulatedWeight(aps: seq<AlignmentPoint>, ws: seq<seq<seq<real>>>, stackSize: nat, y: int, x: int): real
    requires Shaped(aps, ws)
  {
    PartialWeight(aps, ws, stackSize, |aps|, y, x)
  }

  /** The same after the weights of the first n points only. */
  function PartialWeight(aps: seq<AlignmentPoint>, ws: seq<seq<seq<real>>>, stackSize: nat, n: nat, y: int, x: int): real
    requires Shaped(aps, ws) && n <= |aps|
  {
    InitialWeight + stackSize as real * Coverage(aps, ws, n, y, x)
  }

  /** Some alignment point's patch contains pixel (y, x). */
  predicate Covered(aps: seq<AlignmentPoint>, y: int, x: int)
  {
    exists a :: 0 <= a < |aps| && InPatch(aps[a], y, x)
  }

  /** The hole count of a weight buffer holding the accumulated weights is
      0 exactly when the patches cover the whole image. */
  lemma NoHolesIffCovered(buf: array2<real>, aps: seq<AlignmentPoint>, ws: seq<seq<seq<real>>>, stackSize: nat)
    requires WeightsOf(aps, ws, buf.Length0, buf.Length1) && Shaped(aps, ws) && stackSize >= 1
    requires forall a :: 0 <= a < |aps| ==>
      aps[a].patchYHigh - aps[a].patchYLow <= 1000000000 && aps[a].patchXHigh - aps[a].patchXLow <= 1000000000
    requires forall y, x :: 0 <= y < buf.Length0 && 0 <= x < buf.Length1 ==>
      buf[y, x] == AccumulatedWeight(aps, ws, stackSize, y, x)
    ensures CountBelow(buf, 0, buf.Length0, 0, buf.Length1, HoleThreshold) == 0 <==>
      forall y, x :: 0 <= y < buf.Length0 && 0 <= x < buf.Length1 ==> Covered(aps, y, x)
  {
    CountBelowZero(buf, 0, buf.Length0, 0, buf.Length1, HoleThreshold);
    forall y, x | 0 <= y < buf.Length0 && 0 <= x < buf.Length1
      ensures buf[y, x] >= HoleThreshold <==> Covered(aps, y, x)
    {
      HoleIffUncovered(aps, ws, buf.Length0, buf.Length1, stackSize, y, x);
    }
  }

  /** With a stack of at least one frame and patches of at most 10^9
      pixels per side, a cell is a hole exactly when no patch covers it. */
  lemma HoleIffUncovered(aps: seq<AlignmentPoint>, ws: seq<seq<seq<real>>>, dimY: nat, dimX: nat, stackSize: nat, y: int, x: int)
    requires WeightsOf(aps, ws, dimY, dimX) && Shaped(aps, ws) && stackSize >= 1
    requires forall a :: 0 <= a < |aps| ==>
      aps[a].patchYHigh - aps[a].patchYLow <= 1000000000 && aps[a].patchXHigh - aps[a].patchXLow <= 1000000000
    ensures AccumulatedWeight(aps, ws, stackSize, y, x) < HoleThreshold <==> !Covered(aps, y, x)
  {
    WeightsAtLeast(aps, ws, dimY, dimX, 1000000000);
    HoleIffUncoveredAtLeast(aps, ws, stackSize, y, x);
  }

  lemma HoleIffUncoveredAtLeast(aps: seq<AlignmentPoint>, ws: seq<seq<seq<real>>>, stackSize: nat, y: int, x: int)
    requires Shaped(aps, ws) && stackSize >= 1 && AtLeast(ws, 1.0 / 1000000000 as real)
    ensures AccumulatedWeight(aps, ws, stackSize, y, x) < HoleThreshold <==> !Covered(aps, y, x)
  {
    var c := Coverage(aps, ws, |aps|, y, x);
    CoverageSign(aps, ws, |aps|, 1.0 / 1000000000 as real, y, x);
    if exists a :: 0 <= a < |aps| && InPatch(aps[a], y, x) {
      CoverageAtLeast(aps, ws, |aps|, 1.0 / 1000000000 as real, y, x);
      LargeWeight(stackSize as real, c);
    }
  }

  /** Adds k times the stored weights of alignment point a into buf, which
      holds the initial weight plus k times the weights of the points before
      it; afterwards it holds those of the points up to a. */
  method AddWeightsOf(buf: array2<real>, aps: seq<AlignmentPoint>, ws: seq<seq<seq<real>>>, a: nat, stackSize: nat)
    requires Shaped(aps, ws) && a < |aps|
    requires aps[a].patchYHigh <= buf.Length0 && aps[a].patchXHigh <= buf.Length1
    requires forall y, x :: 0 <= y < buf.Length0 && 0 <= x < buf.Length1 ==>
      buf[y, x] == PartialWeight(aps, ws, stackSize, a, y, x)
    modifies buf
    ensures forall y, x :: 0 <= y < buf.Length0 && 0 <= x < buf.Length1 ==>
      buf[y, x] == PartialWeight(aps, ws, stackSize, a + 1, y, x)
  {
    var ap := aps[a];
    AddBlock(buf, ap.patchYLow, ap.patchXLow, ws[a], ap.patchYHigh - ap.patchYLow, ap.patchXHigh - ap.patchXLow,
             stackSize as real);
    forall y, x | 0 <= y < buf.Length0 && 0 <= x < buf.Length1
      ensures buf[y, x] == PartialWeight(aps, ws, stackSize, a + 1, y, x)
    {
      AddScaled(InitialWeight, old(buf[y, x]), buf[y, x], stackSize as real,
                Coverage(aps, ws, a, y, x), PatchValue(ap, ws[a], y, x), Coverage(aps, ws, a + 1, y, x));
    }
  }

  /** A full stack's weight on a covered pixel is far above the hole threshold. */
  lemma LargeWeight(k: real, c: real)
    requires k >= 1.0 && c >= 1.0 / 1000000000 as real
    ensures InitialWeight + k * c >= HoleThreshold
  {
    assert k * c >= c by {
      assert k * c - c == (k - 1.0) * c;
    }
  }

  /** Adding k * v to a cell holding base + k * c leaves base + k * (c + v). */
  lemma AddScaled(base: real, before: real, after: real, k: real, c: real, v: real, c': real)
    requires before == base + k * c && after == before + k * v && c' == c + v
    ensures after == base + k * c'
  {
  }

  /** The histogram after recording one measurement: its bucket grows by
      one when it succeeded. */
  function Recorded(hist: seq<nat>, m: ShiftMeasurement): (h: seq<nat>)
    requires m.success ==> ShiftBucket(m) < |hist|
    ensures |h| == |hist|
  {
    if m.success then hist[ShiftBucket(m) := hist[ShiftBucket(m)] + 1] else hist
  }

  /** All successful measurements fall inside a histogram of n buckets. */
  predicate AllInRange(ms: seq<ShiftMeasurement>, n: nat)
  {
    forall k :: 0 <= k < |ms| && ms[k].success ==> ShiftBucket(ms[k]) < n
  }

  lemma AppendAssoc(a: seq<ShiftMeasurement>, b: seq<ShiftMeasurement>, c: seq<ShiftMeasurement>)
    ensures a + b + c == a + (b + c)
  {
  }

  lemma TakeOneMore(ms: seq<ShiftMeasurement>, k: nat)
    requires k < |ms|
    ensures ms[..k + 1] == ms[..k] + [ms[k]]
  {
  }

  /** The measurements of two runs fall inside the histogram exactly when
      those of each run do. */
  lemma AllInRangeConcat(ms: seq<ShiftMeasurement>, ms': seq<ShiftMeasurement>, n: nat)
    ensures AllInRange(ms + ms', n) <==> AllInRange(ms, n) && AllInRange(ms', n)
  {
    forall k | 0 <= k < |ms|
      ensures (ms + ms')[k] == ms[k]
    {
    }
    forall k | 0 <= k < |ms'|
      ensures (ms + ms')[|ms| + k] == ms'[k]
    {
    }
  }

  /** Recording a measurement that fits the histogram keeps the histogram,
      the failure counter and the range condition in step with the
      measurements recorded. */
  lemma RecordedKeepsCounted(hist: seq<nat>, ms: seq<ShiftMeasurement>, failures: nat, m: ShiftMeasurement)
    requires Counts(hist, ms) && failures == Failures(ms) && AllInRange(ms, |hist|)
    requires m.success ==> ShiftBucket(m) < |hist|
    ensures Counts(Recorded(hist, m), ms + [m])
    ensures failures + (if m.success then 0 else 1) == Failures(ms + [m])
    ensures AllInRange(ms + [m], |Recorded(hist, m)|)
  {
    assert (ms + [m])[..|ms|] == ms;
  }

  /** What stacking needs of one frame besides its pixels: its global
      shift (dy, dx) against the mean frame, the alignment points for
      which it is among the best, and the warp shift measured at each of
      them (in drizzled pixels). */
  datatype FrameShifts = FrameShifts(dy: int, dx: int, used: seq<nat>, shifts: seq<ShiftMeasurement>)

  /** One measurement per used point, and every used point exists. */
  predicate FitsPoints(fs: FrameShifts, apCount: nat)
  {
    |fs.used| == |fs.shifts| && forall k :: 0 <= k < |fs.used| ==> fs.used[k] < apCount
  }

  /** The total shift, in drizzled pixels, of the k-th used point: the
      global shift scaled by the drizzle factor, minus the warp shift. */
  function ShiftY(fs: FrameShifts, d: nat, k: nat): int
    requires k < |fs.shifts|
  {
    fs.dy * d - fs.shifts[k].shiftY
  }

  function ShiftX(fs: FrameShifts, d: nat, k: nat): int
    requires k < |fs.shifts|
  {
    fs.dx * d - fs.shifts[k].shiftX
  }

  /** Every used point's shifted patch meets or touches the frame on both axes. */
  predicate PatchesMeetFrame(aps: seq<AlignmentPoint>, d: nat, fs: FrameShifts, sizeY: nat, sizeX: nat)
    requires FitsPoints(fs, |aps|)
  {
    forall k :: 0 <= k < |fs.used| ==>
      Overlaps(aps[fs.used[k]].patchYLow, aps[fs.used[k]].patchYHigh, ShiftY(fs, d, k), sizeY) &&
      Overlaps(aps[fs.used[k]].patchXLow, aps[fs.used[k]].patchXHigh, ShiftX(fs, d, k), sizeX)
  }

  /** The border widths after a patch shifted by (shiftY, shiftX) was cut
      to a frame of sizeY x sizeX: each the larger of its old value and
      the overshoot on its side. */
  function Widen(b: Borders, ap: AlignmentPoint, shiftY: int, shiftX: int, sizeY: nat, sizeX: nat): Borders
  {
    Borders(
      Max(b.yLow, OvershootLow(ap.patchYLow, shiftY)),
      Max(b.yHigh, OvershootHigh(ap.patchYHigh, shiftY, sizeY)),
      Max(b.xLow, OvershootLow(ap.patchXLow, shiftX)),
      Max(b.xHigh, OvershootHigh(ap.patchXHigh, shiftX, sizeX)))
  }

  /** The border widths after the first n used points of a frame. */
  function BordersAfter(b: Borders, aps: seq<AlignmentPoint>, d: nat, fs: FrameShifts, n: nat, sizeY: nat, sizeX: nat): Borders
    requires FitsPoints(fs, |aps|) && n <= |fs.used|
  {
    if n == 0 then b
    else Widen(BordersAfter(b, aps, d, fs, n - 1, sizeY, sizeX), aps[fs.used[n - 1]],
               ShiftY(fs, d, n - 1), ShiftX(fs, d, n - 1), sizeY, sizeX)
  }

  /** The border widths never shrink, and each is at least the overshoot
      on its side of every shifted patch cut so far. */
  lemma {:induction false} BordersCoverOvershoots(b: Borders, aps: seq<AlignmentPoint>, d: nat, fs: FrameShifts, n: nat,
                                                  sizeY: nat, sizeX: nat)
    requires FitsPoints(fs, |aps|) && n <= |fs.used|
    ensures var r := BordersAfter(b, aps, d, fs, n, sizeY, sizeX);
      b.yLow <= r.yLow && b.yHigh <= r.yHigh && b.xLow <= r.xLow && b.xHigh <= r.xHigh &&
      forall k :: 0 <= k < n ==>
        OvershootLow(aps[fs.used[k]].patchYLow, ShiftY(fs, d, k)) <= r.yLow &&
        OvershootHigh(aps[fs.used[k]].patchYHigh, ShiftY(fs, d, k), sizeY) <= r.yHigh &&
        OvershootLow(aps[fs.used[k]].patchXLow, ShiftX(fs, d, k)) <= r.xLow &&
        OvershootHigh(aps[fs.used[k]].patchXHigh, ShiftX(fs, d, k), sizeX) <= r.xHigh
  {
    if n > 0 {
      BordersCoverOvershoots(b, aps, d, fs, n - 1, sizeY, sizeX);
    }
  }

  /** What the first n used points of a frame add to cell (i, j) of
      alignment point a's stacking buffer: the shifted frame pixel, once
      per time a is used. */
  function Contribution(frame: seq<seq<real>>, aps: seq<AlignmentPoint>, d: nat, fs: FrameShifts, n: nat, a: nat, i: int, j: int): real
    requires FitsPoints(fs, |aps|) && n <= |fs.used|
  {
    if n == 0 then 0.0
    else Contribution(frame, aps, d, fs, n - 1, a, i, j) + Step(frame, aps, d, fs, n - 1, a, i, j)
  }

  /** What the k-th used point of a frame adds to cell (i, j) of alignment
      point a's stacking buffer. */
  function Step(frame: seq<seq<real>>, aps: seq<AlignmentPoint>, d: nat, fs: FrameShifts, k: nat, a: nat, i: int, j: int): real
    requires FitsPoints(fs, |aps|) && k < |fs.used|
  {
    if fs.used[k] == a
    then ShiftedPixel(frame, i, j, aps[a].patchYLow + ShiftY(fs, d, k), aps[a].patchXLow + ShiftX(fs, d, k))
    else 0.0
  }

  /** The measurements of the first n frames, frame after frame. */
  function Flatten(fss: seq<FrameShifts>, n: nat): (ms: seq<ShiftMeasurement>)
    requires n <= |fss|
  {
    if n == 0 then [] else Flatten(fss, n - 1) + fss[n - 1].shifts
  }

  /** The number of (frame, alignment point) pairs among the first n
      frames. */
  function UsedPairs(fss: seq<FrameShifts>, n: nat): nat
    requires n <= |fss|
  {
    if n == 0 then 0 else UsedPairs(fss, n - 1) + |fss[n - 1].used|
  }

  /** Every (frame, alignment point) pair yields exactly one measurement. */
  lemma {:induction false} FlattenLength(fss: seq<FrameShifts>, n: nat, apCount: nat)
    requires n <= |fss| && forall f :: 0 <= f < |fss| ==> FitsPoints(fss[f], apCount)
    ensures |Flatten(fss, n)| == UsedPairs(fss, n)
  {
    if n > 0 {
      FlattenLength(fss, n - 1, apCount);
    }
  }

  /** The measurements of n frames fit the histogram exactly when those of
      each frame do. */
  lemma {:induction false} AllInRangeFlatten(fss: seq<FrameShifts>, n: nat, len: nat)
    requires n <= |fss|
    ensures AllInRange(Flatten(fss, n), len) <==> forall f :: 0 <= f < n ==> AllInRange(fss[f].shifts, len)
  {
    if n > 0 {
      AllInRangeFlatten(fss, n - 1, len);
      AllInRangeConcat(Flatten(fss, n - 1), fss[n - 1].shifts, len);
    }
  }

  /** The width of a frame: the length of its rows (all equally long). */
  function FrameWidth(frame: seq<seq<real>>): nat
  {
    if frame == [] then 0 else |frame[0]|
  }

  /** A frame is a rectangle of pixels of its own size: the full drizzled
      frame, which is larger than the intersection of all frames whenever
      the frame is globally shifted. */
  predicate Rectangular(frame: seq<seq<real>>)
  {
    IsBlock(frame, |frame|, FrameWidth(frame))
  }

  /** Every frame is a rectangle, its shifts fit the alignment points, and
      its shifted patches meet it. */
  predicate AllFit(aps: seq<AlignmentPoint>, d: nat, frames: seq<seq<seq<real>>>, fss: seq<FrameShifts>)
  {
    |frames| == |fss| &&
    forall f :: 0 <= f < |fss| ==>
      Rectangular(frames[f]) && FitsPoints(fss[f], |aps|) &&
      PatchesMeetFrame(aps, d, fss[f], |frames[f]|, FrameWidth(frames[f]))
  }

  /** The border widths after the first n frames, each patch cut to the
      frame it comes from. */
  function BordersAll(b: Borders, aps: seq<AlignmentPoint>, d: nat, frames: seq<seq<seq<real>>>, fss: seq<FrameShifts>, n: nat): Borders
    requires n <= |fss| == |frames| && forall f :: 0 <= f < |fss| ==> FitsPoints(fss[f], |aps|)
  {
    if n == 0 then b
    else BordersAfter(BordersAll(b, aps, d, frames, fss, n - 1), aps, d, fss[n - 1], |fss[n - 1].used|,
                      |frames[n - 1]|, FrameWidth(frames[n - 1]))
  }

  /** What the first n frames add to cell (i, j) of alignment point a's
      stacking buffer. */
  function Stacked(frames: seq<seq<seq<real>>>, aps: seq<AlignmentPoint>, d: nat, fss: seq<FrameShifts>, n: nat, a: nat, i: int, j: int): real
    requires n <= |fss| == |frames| && forall f :: 0 <= f < |fss| ==> FitsPoints(fss[f], |aps|)
  {
    if n == 0 then 0.0
    else Stacked(frames, aps, d, fss, n - 1, a, i, j) + Contribution(frames[n - 1], aps, d, fss[n - 1], |fss[n - 1].used|, a, i, j)
  }

  /** Whether a trim is needed: some border is non-zero. */
  predicate AnyBorder(b: Borders)
  {
    b.yLow != 0 || b.yHigh != 0 || b.xLow != 0 || b.xHigh != 0
  }

  /** The rows and columns kept by the final trim,
      buffer[yLow : dimY - yHigh, xLow : dimX - xHigh] with numpy's slice
      rules; all of them when there is no border. */
  function TrimBounds(b: Borders, dimY: nat, dimX: nat): (r: ((nat, nat), (nat, nat)))
    ensures r.0.0 <= r.0.1 <= dimY && r.1.0 <= r.1.1 <= dimX
    ensures b.yLow + b.yHigh <= dimY ==> r.0 == (b.yLow, dimY - b.yHigh)
    ensures b.xLow + b.xHigh <= dimX ==> r.1 == (b.xLow, dimX - b.xHigh)
  {
    (SliceBounds(b.yLow, dimY - b.yHigh, dimY), SliceBounds(b.xLow, dimX - b.xHigh, dimX))
  }

  /** The contents of the buffers, each as a block of rows. */
  function Contents(bufs: seq<array2<real>>): (bs: seq<seq<seq<real>>>)
    reads bufs
    ensures |bs| == |bufs| && forall a :: 0 <= a < |bufs| ==> bs[a] == Block(bufs[a], 0, bufs[a].Length0, 0, bufs[a].Length1)
  {
    seq(|bufs|, a requires 0 <= a < |bufs| reads bufs => Block(bufs[a], 0, bufs[a].Length0, 0, bufs[a].Length1))
  }

  /** Pixel (y, x) of the merged image before normalisation: the stacking
      buffer contents bs of the first n points, each times its point's
      weights, added where their patches lie. */
  function MergedSum(aps: seq<AlignmentPoint>, ws: seq<seq<seq<real>>>, bs: seq<seq<seq<real>>>, n: nat, y: int, x: int): real
    requires Shaped(aps, ws) && Shaped(aps, bs) && n <= |aps|
  {
    if n == 0 then 0.0
    else MergedSum(aps, ws, bs, n - 1, y, x) + PatchValue(aps[n - 1], bs[n - 1], y, x) * PatchValue(aps[n - 1], ws[n - 1], y, x)
  }

  /** The sum over the first n + 1 points is the sum over the first n plus
      point n's product, which is 0 outside point n's patch. */
  lemma MergedSumNext(aps: seq<AlignmentPoint>, ws: seq<seq<seq<real>>>, bs: seq<seq<seq<real>>>, n: nat, y: int, x: int)
    requires Shaped(aps, ws) && Shaped(aps, bs) && n < |aps|
    ensures var ap := aps[n];
      MergedSum(aps, ws, bs, n + 1, y, x) == MergedSum(aps, ws, bs, n, y, x) +
        (if InPatch(ap, y, x) then bs[n][y - ap.patchYLow][x - ap.patchXLow] * ws[n][y - ap.patchYLow][x - ap.patchXLow] else 0.0)
  {
    assert ShapedLike(aps[n], bs[n]) && ShapedLike(aps[n], ws[n]);
  }

  /** The values the patch-shaped blocks ms give pixel (y, x), point by
      point. */
  function Values(aps: seq<AlignmentPoint>, ms: seq<seq<seq<real>>>, y: int, x: int): (r: seq<real>)
    requires Shaped(aps, ms)
    ensures |r| == |aps| && forall k :: 0 <= k < |aps| ==> r[k] == PatchValue(aps[k], ms[k], y, x)
  {
    seq(|aps|, k requires 0 <= k < |aps| => PatchValue(aps[k], ms[k], y, x))
  }

  /** The merge weighs the buffers with the very weights the normaliser
      adds up: if every buffer holds v everywhere, the merged pixel is v
      times the pixel's total weight. */
  lemma MergedUniform(aps: seq<AlignmentPoint>, ws: seq<seq<seq<real>>>, bs: seq<seq<seq<real>>>, v: real, y: int, x: int)
    requires Shaped(aps, ws) && Shaped(aps, bs)
    requires forall a, i, j :: 0 <= a < |bs| && 0 <= i < |bs[a]| && 0 <= j < |bs[a][i]| ==> bs[a][i][j] == v
    ensures MergedSum(aps, ws, bs, |aps|, y, x) == v * Coverage(aps, ws, |aps|, y, x)
  {
    var b := Values(aps, bs, y, x);
    var w := Values(aps, ws, y, x);
    UniformValues(aps, ws, bs, v, y, x);
    MergedSumAsProducts(aps, ws, bs, |aps|, y, x);
    ProductsUniform(b, w, |aps|, v);
    ScaledEqual(MergedSum(aps, ws, bs, |aps|, y, x), SumOfProducts(b, w, |aps|),
                Coverage(aps, ws, |aps|, y, x), Sum(w, |aps|), v);
  }

  /** Under uniform buffers, each point's buffer value at a pixel is v,
      or its weight there is 0. */
  lemma UniformValues(aps: seq<AlignmentPoint>, ws: seq<seq<seq<real>>>, bs: seq<seq<seq<real>>>, v: real, y: int, x: int)
    requires Shaped(aps, ws) && Shaped(aps, bs)
    requires forall a, i, j :: 0 <= a < |bs| && 0 <= i < |bs[a]| && 0 <= j < |bs[a][i]| ==> bs[a][i][j] == v
    ensures forall k :: 0 <= k < |aps| ==> Values(aps, bs, y, x)[k] == v || Values(aps, ws, y, x)[k] == 0.0
  {
    var b := Values(aps, bs, y, x);
    var w := Values(aps, ws, y, x);
    forall k | 0 <= k < |aps|
      ensures b[k] == v || w[k] == 0.0
    {
      if !InPatch(aps[k], y, x) {
        assert w[k] == 0.0;
      }
    }
  }

  /** The merged sum and the coverage of a pixel are the sums, over the
      first n points, of the products of the buffer values and the weights
      there, and of the weights. */
  lemma {:induction false} MergedSumAsProducts(aps: seq<AlignmentPoint>, ws: seq<seq<seq<real>>>, bs: seq<seq<seq<real>>>,
                                               n: nat, y: int, x: int)
    requires Shaped(aps, ws) && Shaped(aps, bs) && n <= |aps|
    ensures MergedSum(aps, ws, bs, n, y, x) == SumOfProducts(Values(aps, bs, y, x), Values(aps, ws, y, x), n)
    ensures Coverage(aps, ws, n, y, x) == Sum(Values(aps, ws, y, x), n)
  {
    if n > 0 {
      MergedSumAsProducts(aps, ws, bs, n - 1, y, x);
    }
  }

  function SumOfProducts(b: seq<real>, w: seq<real>, n: nat): real
    requires n <= |b| && n <= |w|
  {
    if n == 0 then 0.0 else SumOfProducts(b, w, n - 1) + b[n - 1] * w[n - 1]
  }

  function Sum(w: seq<real>, n: nat): real
    requires n <= |w|
  {
    if n == 0 then 0.0 else Sum(w, n - 1) + w[n - 1]
  }

  /** Where every b[k] is v or its weight w[k] is 0, the weighted sum is v
      times the sum of the weights. */
  lemma {:induction false} ProductsUniform(b: seq<real>, w: seq<real>, n: nat, v: real)
    requires n <= |b| && n <= |w|
    requires forall k :: 0 <= k < n ==> b[k] == v || w[k] == 0.0
    ensures SumOfProducts(b, w, n) == v * Sum(w, n)
  {
    if n > 0 {
      ProductsUniform(b, w, n - 1, v);
      AddProducts(SumOfProducts(b, w, n - 1), Sum(w, n - 1), b[n - 1] * w[n - 1], w[n - 1], v,
                  SumOfProducts(b, w, n), Sum(w, n));
    }
  }

  lemma ScaledEqual(m: real, m': real, c: real, c': real, v: real)
    requires m == m' && c == c' && m' == v * c'
    ensures m == v * c
  {
  }

  /** Adding v * w to v * c gives v times the sum. */
  lemma AddProducts(m: real, c: real, t: real, w: real, v: real, m': real, c': real)
    requires m == v * c && t == v * w && m' == m + t && c' == c + w
    ensures m' == v * c'
  {
  }

  /** The accumulated weight of every pixel is positive, so the division
      by it is defined. */
  lemma AccumulatedPositive(aps: seq<AlignmentPoint>, ws: seq<seq<seq<real>>>, dimY: nat, dimX: nat, stackSize: nat, y: int, x: int)
    requires WeightsOf(aps, ws, dimY, dimX) && Shaped(aps, ws)
    ensures AccumulatedWeight(aps, ws, stackSize, y, x) >= InitialWeight
  {
    CoverageNonNegative(aps, ws, dimY, dimX, y, x);
    NonNegativeProduct(stackSize as real, Coverage(aps, ws, |aps|, y, x));
  }

  lemma CoverageNonNegative(aps: seq<AlignmentPoint>, ws: seq<seq<seq<real>>>, dimY: nat, dimX: nat, y: int, x: int)
    requires WeightsOf(aps, ws, dimY, dimX) && Shaped(aps, ws)
    ensures Coverage(aps, ws, |aps|, y, x) >= 0.0
  {
    var bound := dimY + dimX + 1;
    SidesWithin(aps, ws, dimY, dimX);
    WeightsAtLeast(aps, ws, dimY, dimX, bound);
    PositiveFraction(bound);
    CoverageSign(aps, ws, |aps|, 1.0 / bound as real, y, x);
  }

  lemma SidesWithin(aps: seq<AlignmentPoint>, ws: seq<seq<seq<real>>>, dimY: nat, dimX: nat)
    requires WeightsOf(aps, ws, dimY, dimX)
    ensures forall a :: 0 <= a < |aps| ==>
      aps[a].patchYHigh - aps[a].patchYLow <= dimY + dimX + 1 && aps[a].patchXHigh - aps[a].patchXLow <= dimY + dimX + 1
  {
    forall a | 0 <= a < |aps|
      ensures aps[a].patchYHigh - aps[a].patchYLow <= dimY + dimX + 1 && aps[a].patchXHigh - aps[a].patchXLow <= dimY + dimX + 1
    {
      assert WellPlaced(aps[a], dimY, dimX);
    }
  }

  lemma PositiveFraction(b: nat)
    requires b > 0
    ensures 1.0 / b as real > 0.0
  {
  }

  /** Pixel (y, x) of the merged image after the division by the
      accumulated weight. */
  function Normalised(aps: seq<AlignmentPoint>, ws: seq<seq<seq<real>>>, bs: seq<seq<seq<real>>>,
                      dimY: nat, dimX: nat, stackSize: nat, y: int, x: int): real
    requires WeightsOf(aps, ws, dimY, dimX) && Shaped(aps, ws) && Shaped(aps, bs)
  {
    AccumulatedPositive(aps, ws, dimY, dimX, stackSize, y, x);
    MergedSum(aps, ws, bs, |aps|, y, x) / AccumulatedWeight(aps, ws, stackSize, y, x)
  }

  class StackFrames {
    const dimY: nat
    const dimX: nat
    const drizzleFactor: nat
    const dimYDrizzled: nat
    const dimXDrizzled: nat
    const stackSize: nat
    const blendThreshold: real
    const backgroundFraction: real
    const backgroundPatchSize: nat
    const searchWidth: nat
    const alignmentPoints: seq<AlignmentPoint>
    const stackingBuffers: seq<array2<real>>
    ghost const bufferOwner: map<array2<real>, nat>
    const sumSingleFrameWeights: array2<real>
    /** The weights_yx stored with each alignment point. */
    var apWeights: seq<seq<seq<real>>>
    var stackedImageBuffer: array2<real>
    var numberStackingHoles: nat
    var averagedBackground: array2?<real>
    var backgroundPatches: Option<seq<BackgroundPatch>>
    var shiftDistribution: array<nat>
    var shiftFailureCounter: nat
    var shiftEntriesTotal: nat
    var shiftFailurePercent: real
    var borders: Borders
    /** The warp-shift measurements recorded so far. */
    ghost var measured: seq<ShiftMeasurement>

    /** The weight buffer has the drizzled image's shape, each alignment
        point's stacking buffer the shape of its patch, and no two of them
        are the same array (bufferOwner maps each back to its point). */
    ghost predicate Valid()
    {
      drizzleFactor > 0 &&
      dimYDrizzled == dimY * drizzleFactor && dimXDrizzled == dimX * drizzleFactor &&
      sumSingleFrameWeights.Length0 == dimYDrizzled && sumSingleFrameWeights.Length1 == dimXDrizzled &&
      |stackingBuffers| == |alignmentPoints| &&
      AllWellPlaced(alignmentPoints, dimYDrizzled, dimXDrizzled) &&
      forall a :: 0 <= a < |alignmentPoints| ==>
        stackingBuffers[a].Length0 == alignmentPoints[a].patchYHigh - alignmentPoints[a].patchYLow &&
        stackingBuffers[a].Length1 == alignmentPoints[a].patchXHigh - alignmentPoints[a].patchXLow &&
        stackingBuffers[a] != sumSingleFrameWeights &&
        stackingBuffers[a] in bufferOwner && bufferOwner[stackingBuffers[a]] == a
    }

    /** Before merging, the image buffer has the drizzled image's shape and
        is none of the other buffers. */
    predicate MergeReady()
      reads this`stackedImageBuffer
    {
      stackedImageBuffer.Length0 == dimYDrizzled && stackedImageBuffer.Length1 == dimXDrizzled &&
      stackedImageBuffer != sumSingleFrameWeights &&
      forall a :: 0 <= a < |stackingBuffers| ==> stackingBuffers[a] != stackedImageBuffer
    }

    /** The weight buffer holds, in every cell, the initial weight plus the
        weights of all patches over it for a full stack. */
    predicate Accumulated()
      requires Valid() && Shaped(alignmentPoints, apWeights)
      reads this`apWeights, sumSingleFrameWeights
    {
      forall y, x :: 0 <= y < dimYDrizzled && 0 <= x < dimXDrizzled ==>
        sumSingleFrameWeights[y, x] == AccumulatedWeight(alignmentPoints, apWeights, stackSize, y, x)
    }

    /** The histogram counts the successful measurements, the failure
        counter the others, and none fell past the histogram's end. */
    ghost predicate ShiftsCounted()
      reads this`shiftDistribution, this`shiftFailureCounter, this`measured, shiftDistribution
    {
      Counts(shiftDistribution[..], measured) && shiftFailureCounter == Failures(measured) &&
      AllInRange(measured, shiftDistribution.Length)
    }

    constructor(dimY: nat, dimX: nat, drizzleFactor: nat, stackSize: nat, blendThreshold: real,
                backgroundFraction: real, backgroundPatchSize: nat, searchWidth: nat, aps: seq<AlignmentPoint>)
      requires drizzleFactor > 0 && AllWellPlaced(aps, dimY * drizzleFactor, dimX * drizzleFactor)
      ensures Valid() && MergeReady()
      ensures this.dimY == dimY && this.dimX == dimX && this.drizzleFactor == drizzleFactor
      ensures this.stackSize == stackSize && this.blendThreshold == blendThreshold
      ensures this.backgroundFraction == backgroundFraction && this.backgroundPatchSize == backgroundPatchSize
      ensures this.searchWidth == searchWidth && alignmentPoints == aps
      ensures forall y, x :: 0 <= y < dimYDrizzled && 0 <= x < dimXDrizzled ==>
        sumSingleFrameWeights[y, x] == InitialWeight && stackedImageBuffer[y, x] == 0.0
      ensures forall a, i, j :: 0 <= a < |aps| && 0 <= i < stackingBuffers[a].Length0 && 0 <= j < stackingBuffers[a].Length1 ==>
        stackingBuffers[a][i, j] == 0.0
      ensures averagedBackground == null && backgroundPatches == None && numberStackingHoles == 0
      ensures borders == Borders(0, 0, 0, 0)
    {
      this.dimY := dimY;
      this.dimX := dimX;
      this.drizzleFactor := drizzleFactor;
      dimYDrizzled := dimY * drizzleFactor;
      dimXDrizzled := dimX * drizzleFactor;
      this.stackSize := stackSize;
      this.blendThreshold := blendThreshold;
      this.backgroundFraction := backgroundFraction;
      this.backgroundPatchSize := backgroundPatchSize;
      this.searchWidth := searchWidth;
      alignmentPoints := aps;
      var buffers: seq<array2<real>> := [];
      ghost var owner: map<array2<real>, nat> := map[];
      var a := 0;
      while a < |aps|
        invariant 0 <= a <= |aps| && |buffers| == a
        invariant forall k :: 0 <= k < a ==> (fresh(buffers[k]) &&
          buffers[k].Length0 == aps[k].patchYHigh - aps[k].patchYLow &&
          buffers[k].Length1 == aps[k].patchXHigh - aps[k].patchXLow)
        invariant forall k, i, j :: 0 <= k < a && 0 <= i < buffers[k].Length0 && 0 <= j < buffers[k].Length1 ==>
          buffers[k][i, j] == 0.0
        invariant forall k :: 0 <= k < a ==> buffers[k] in owner && owner[buffers[k]] == k
      {
        var buffer := new real[aps[a].patchYHigh - aps[a].patchYLow, aps[a].patchXHigh - aps[a].patchXLow]((i, j) => 0.0);
        buffers := buffers + [buffer];
        owner := owner[buffer := a];
        a := a + 1;
      }
      stackingBuffers := buffers;
      bufferOwner := owner;
      stackedImageBuffer := new real[dimY * drizzleFactor, dimX * drizzleFactor]((y, x) => 0.0);
      sumSingleFrameWeights := new real[dimY * drizzleFactor, dimX * drizzleFactor]((y, x) => InitialWeight);
      apWeights := [];
      numberStackingHoles := 0;
      averagedBackground := null;
      backgroundPatches := None;
      shiftDistribution := new nat[0];
      shiftFailureCounter := 0;
      shiftEntriesTotal := 0;
      shiftFailurePercent := 0.0;
      borders := Borders(0, 0, 0, 0);
      measured := [];
    }

    /** Computes the weights_yx of every alignment point and stores them
        with it. */
    method ComputeAPWeights()
      requires Valid()
      modifies this`apWeights
      ensures WeightsOf(alignmentPoints, apWeights, dimYDrizzled, dimXDrizzled) && Shaped(alignmentPoints, apWeights)
    {
      var ws := [];
      var a := 0;
      while a < |alignmentPoints|
        invariant 0 <= a <= |alignmentPoints| && |ws| == a
        invariant forall k :: 0 <= k < a ==> ws[k] == APWeights(alignmentPoints[k], dimYDrizzled, dimXDrizzled)
      {
        ws := ws + [APWeights(alignmentPoints[a], dimYDrizzled, dimXDrizzled)];
        a := a + 1;
      }
      apWeights := ws;
      WeightsAreShaped(alignmentPoints, apWeights, dimYDrizzled, dimXDrizzled);
    }

    /** The stored weights of every alignment point, for a full stack, added
        into the weight buffer: sum_single_frame_weights[patch] +=
        stack_size * weights_yx. */
    method AccumulateWeights()
      requires Valid() && Shaped(alignmentPoints, apWeights)
      requires forall y, x :: 0 <= y < dimYDrizzled && 0 <= x < dimXDrizzled ==> sumSingleFrameWeights[y, x] == InitialWeight
      modifies sumSingleFrameWeights
      ensures Accumulated()
    {
      var a := 0;
      while a < |alignmentPoints|
        invariant 0 <= a <= |alignmentPoints|
        invariant forall y, x :: 0 <= y < dimYDrizzled && 0 <= x < dimXDrizzled ==>
          sumSingleFrameWeights[y, x] == PartialWeight(alignmentPoints, apWeights, stackSize, a, y, x)
      {
        AddWeightsOf(sumSingleFrameWeights, alignmentPoints, apWeights, a, stackSize);
        a := a + 1;
      }
    }

    /** The weight below which a pixel takes part of its value from the
        background. */
    function BlendLimit(): real
    {
      blendThreshold * stackSize as real
    }

    /** Finds the pixels where the background is needed: stores every
        alignment point's weights, accumulates them in the weight buffer,
        then looks for holes (FindHoles). */
    method PrepareForStackBlending()
      requires Valid() && backgroundPatchSize > 0
      requires forall y, x :: 0 <= y < dimYDrizzled && 0 <= x < dimXDrizzled ==> sumSingleFrameWeights[y, x] == InitialWeight
      modifies this`apWeights, sumSingleFrameWeights, this`numberStackingHoles, this`averagedBackground, this`backgroundPatches
      ensures WeightsOf(alignmentPoints, apWeights, dimYDrizzled, dimXDrizzled) && Shaped(alignmentPoints, apWeights)
      ensures Accumulated()
      ensures HolesFound(old(averagedBackground), old(backgroundPatches))
      ensures numberStackingHoles > 0 ==> fresh(averagedBackground)
    {
      ComputeAPWeights();
      AccumulateWeights();
      FindHoles();
    }

    /** After FindHoles: the hole count is that of the weight buffer; with
        no holes the background fields are as they were (background,
        patches); with holes the background buffer is a zero image and, when
        the pixels that take part of their value from the background are a
        smaller share of the image than the background fraction, the
        background patches are the squares that contain such pixels. */
    predicate HolesFound(background: array2?<real>, patches: Option<seq<BackgroundPatch>>)
      requires Valid() && backgroundPatchSize > 0
      reads this`numberStackingHoles, this`averagedBackground, this`backgroundPatches, sumSingleFrameWeights, averagedBackground
    {
      numberStackingHoles == CountBelow(sumSingleFrameWeights, 0, dimYDrizzled, 0, dimXDrizzled, HoleThreshold) &&
      (numberStackingHoles == 0 ==> averagedBackground == background && backgroundPatches == patches) &&
      (numberStackingHoles > 0 ==>
        averagedBackground != null &&
        averagedBackground.Length0 == dimY && averagedBackground.Length1 == dimX &&
        (forall y, x :: 0 <= y < dimY && 0 <= x < dimX ==> averagedBackground[y, x] == 0.0) &&
        dimYDrizzled * dimXDrizzled > 0 &&
        backgroundPatches ==
          if BackgroundShare() < backgroundFraction
          then Some(Tiles(sumSingleFrameWeights, 0, dimY, dimX, backgroundPatchSize, drizzleFactor, BlendLimit()))
          else patches)
    }

    /** Counts the holes of the weight buffer; when there are some,
        allocates the background buffer and decides whether the background
        is needed only in some patches. */
    method FindHoles()
      requires Valid() && backgroundPatchSize > 0
      modifies this`numberStackingHoles, this`averagedBackground, this`backgroundPatches
      ensures HolesFound(old(averagedBackground), old(backgroundPatches))
      ensures numberStackingHoles > 0 ==> fresh(averagedBackground)
    {
      numberStackingHoles := CountCellsBelow(sumSingleFrameWeights, 0, dimYDrizzled, 0, dimXDrizzled, HoleThreshold);
      if numberStackingHoles == 0 {
        return;
      }
      averagedBackground := new real[dimY, dimX]((y, x) => 0.0);
      CountBelowAtMostArea(sumSingleFrameWeights, 0, dimYDrizzled, 0, dimXDrizzled, HoleThreshold);
      ChooseBackgroundPatches();
    }

    /** The share of the drizzled image's pixels that take part of their
        value from the background. */
    function BackgroundShare(): real
      requires Valid() && dimYDrizzled * dimXDrizzled > 0
      reads sumSingleFrameWeights
    {
      CountBelow(sumSingleFrameWeights, 0, dimYDrizzled, 0, dimXDrizzled, BlendLimit()) as real
        / (dimYDrizzled * dimXDrizzled) as real
    }

    /** When that share is below the background fraction, the background
        is computed only in the squares that contain such pixels. */
    method ChooseBackgroundPatches()
      requires Valid() && backgroundPatchSize > 0 && dimYDrizzled * dimXDrizzled > 0
      modifies this`backgroundPatches
      ensures backgroundPatches ==
        if BackgroundShare() < backgroundFraction
        then Some(Tiles(sumSingleFrameWeights, 0, dimY, dimX, backgroundPatchSize, drizzleFactor, BlendLimit()))
        else old(backgroundPatches)
    {
      var used := CountCellsBelow(sumSingleFrameWeights, 0, dimYDrizzled, 0, dimXDrizzled, BlendLimit());
      if used as real / (dimYDrizzled * dimXDrizzled) as real < backgroundFraction {
        var patches := ListBackgroundPatches(sumSingleFrameWeights, dimY, dimX, backgroundPatchSize, drizzleFactor, BlendLimit());
        backgroundPatches := Some(patches);
      }
    }

    /** A zero histogram of search_width * drizzle_factor * 2 buckets and
        a zero failure counter. */
    method StartShiftStatistics()
      modifies this`shiftDistribution, this`shiftFailureCounter, this`measured
      ensures fresh(shiftDistribution) && shiftDistribution.Length == searchWidth * drizzleFactor * 2
      ensures forall b :: 0 <= b < shiftDistribution.Length ==> shiftDistribution[b] == 0
      ensures shiftFailureCounter == 0 && measured == [] && ShiftsCounted()
    {
      shiftDistribution := new nat[searchWidth * drizzleFactor * 2](b => 0);
      shiftFailureCounter := 0;
      measured := [];
    }

    /** Records one warp-shift measurement: a successful one increments the
        bucket of its rounded length, a failed one the failure counter. A
        bucket past the histogram's end is an IndexError, and then nothing
        is recorded. */
    method RecordShift(m: ShiftMeasurement) returns (outcome: Outcome)
      requires ShiftsCounted()
      modifies shiftDistribution, this`shiftFailureCounter, this`measured
      ensures outcome == IndexError <==> m.success && ShiftBucket(m) >= shiftDistribution.Length
      ensures outcome == IndexError ==>
        shiftDistribution[..] == old(shiftDistribution[..]) && shiftFailureCounter == old(shiftFailureCounter) &&
        measured == old(measured)
      ensures outcome == Pass ==>
        shiftDistribution[..] == Recorded(old(shiftDistribution[..]), m) &&
        shiftFailureCounter == old(shiftFailureCounter) + (if m.success then 0 else 1) &&
        measured == old(measured) + [m] && ShiftsCounted()
    {
      if m.success && ShiftBucket(m) >= shiftDistribution.Length {
        return IndexError;
      }
      RecordedKeepsCounted(shiftDistribution[..], measured, shiftFailureCounter, m);
      if m.success {
        IncrementBucket(m);
      } else {
        shiftFailureCounter := shiftFailureCounter + 1;
      }
      measured := measured + [m];
      outcome := Pass;
    }

    /** shift_distribution[bucket] += 1 for a successful measurement. */
    method IncrementBucket(m: ShiftMeasurement)
      requires m.success && ShiftBucket(m) < shiftDistribution.Length
      modifies shiftDistribution
      ensures shiftDistribution[..] == Recorded(old(shiftDistribution[..]), m)
    {
      var bucket := ShiftBucket(m);
      shiftDistribution[bucket] := shiftDistribution[bucket] + 1;
    }

    /** Stacks one frame: for every alignment point for which the frame is
        among the best, records the warp shift measured there and adds the
        frame's patch, shifted by the total shift, into the point's
        stacking buffer. A warp shift past the histogram's end raises an
        IndexError, which ends stacking. */
    method StackFrame(frame: seq<seq<real>>, fs: FrameShifts) returns (outcome: Outcome)
      requires Valid() && ShiftsCounted() && FitsPoints(fs, |alignmentPoints|)
      requires Rectangular(frame)
      requires PatchesMeetFrame(alignmentPoints, drizzleFactor, fs, |frame|, FrameWidth(frame))
      modifies stackingBuffers, shiftDistribution, this`shiftFailureCounter, this`measured, this`borders
      ensures ShiftsCounted()
      ensures outcome == Pass <==> AllInRange(fs.shifts, shiftDistribution.Length)
      ensures outcome == Pass ==>
        measured == old(measured) + fs.shifts &&
        borders == BordersAfter(old(borders), alignmentPoints, drizzleFactor, fs, |fs.used|, |frame|, FrameWidth(frame))
      ensures outcome == Pass ==>
        forall a, i, j :: 0 <= a < |stackingBuffers| && 0 <= i < stackingBuffers[a].Length0 && 0 <= j < stackingBuffers[a].Length1 ==>
          stackingBuffers[a][i, j] == old(stackingBuffers[a][i, j]) + Contribution(frame, alignmentPoints, drizzleFactor, fs, |fs.used|, a, i, j)
    {
      var k := 0;
      while k < |fs.used|
        invariant 0 <= k <= |fs.used|
        invariant ShiftsCounted() && measured == old(measured) + fs.shifts[..k]
        invariant borders == BordersAfter(old(borders), alignmentPoints, drizzleFactor, fs, k, |frame|, FrameWidth(frame))
        invariant forall a, i, j :: 0 <= a < |stackingBuffers| && 0 <= i < stackingBuffers[a].Length0 && 0 <= j < stackingBuffers[a].Length1 ==>
          stackingBuffers[a][i, j] == old(stackingBuffers[a][i, j]) + Contribution(frame, alignmentPoints, drizzleFactor, fs, k, a, i, j)
      {
        label before:
        outcome := StackPoint(frame, fs, k);
        if outcome == IndexError {
          return;
        }
        forall a, i, j | 0 <= a < |stackingBuffers| && 0 <= i < stackingBuffers[a].Length0 && 0 <= j < stackingBuffers[a].Length1
          ensures stackingBuffers[a][i, j] ==
            old(stackingBuffers[a][i, j]) + Contribution(frame, alignmentPoints, drizzleFactor, fs, k + 1, a, i, j)
        {
          assert old@before(stackingBuffers[a][i, j]) ==
            old(stackingBuffers[a][i, j]) + Contribution(frame, alignmentPoints, drizzleFactor, fs, k, a, i, j);
        }
        TakeOneMore(fs.shifts, k);
        k := k + 1;
      }
      assert fs.shifts[..k] == fs.shifts;
      AllInRangeConcat(old(measured), fs.shifts, shiftDistribution.Length);
      outcome := Pass;
    }

    /** stack_frames: prepares the weights and the background decision
        (PrepareForStackBlending, whose contract states them), then stacks
        the frames with the shift statistics. */
    method Stack(frames: seq<seq<seq<real>>>, fss: seq<FrameShifts>) returns (outcome: Outcome)
      requires Valid() && backgroundPatchSize > 0
      requires forall y, x :: 0 <= y < dimYDrizzled && 0 <= x < dimXDrizzled ==> sumSingleFrameWeights[y, x] == InitialWeight
      requires AllFit(alignmentPoints, drizzleFactor, frames, fss)
      modifies this`apWeights, sumSingleFrameWeights, this`numberStackingHoles, this`averagedBackground, this`backgroundPatches
      modifies this`shiftDistribution, this`shiftFailureCounter, this`measured, this`shiftEntriesTotal, this`shiftFailurePercent
      modifies this`borders, stackingBuffers
      ensures WeightsOf(alignmentPoints, apWeights, dimYDrizzled, dimXDrizzled) && Shaped(alignmentPoints, apWeights)
      ensures Accumulated()
      ensures numberStackingHoles == CountBelow(sumSingleFrameWeights, 0, dimYDrizzled, 0, dimXDrizzled, HoleThreshold)
      ensures shiftDistribution.Length == searchWidth * drizzleFactor * 2
      ensures outcome == Pass <==> AllInRange(Flatten(fss, |fss|), searchWidth * drizzleFactor * 2)
      ensures outcome == Pass ==>
        measured == Flatten(fss, |fss|) && ShiftsCounted() &&
        shiftEntriesTotal == |measured| == UsedPairs(fss, |fss|) &&
        shiftFailurePercent == FailurePercent(shiftFailureCounter, shiftEntriesTotal) &&
        borders == BordersAll(Borders(0, 0, 0, 0), alignmentPoints, drizzleFactor, frames, fss, |fss|)
      ensures outcome == Pass ==>
        forall a, i, j :: 0 <= a < |stackingBuffers| && 0 <= i < stackingBuffers[a].Length0 && 0 <= j < stackingBuffers[a].Length1 ==>
          stackingBuffers[a][i, j] == old(stackingBuffers[a][i, j]) + Stacked(frames, alignmentPoints, drizzleFactor, fss, |fss|, a, i, j)
    {
      PrepareForStackBlending();
      outcome := StackWithStatistics(frames, fss);
    }

    /** The part of stack_frames after the preparation: a zero histogram,
        zero borders, every frame stacked and, when no warp shift fell past
        the histogram's end, the number of entries (one per frame and
        alignment point used) and the failure percentage. */
    method StackWithStatistics(frames: seq<seq<seq<real>>>, fss: seq<FrameShifts>) returns (outcome: Outcome)
      requires Valid()
      requires AllFit(alignmentPoints, drizzleFactor, frames, fss)
      modifies this`shiftDistribution, this`shiftFailureCounter, this`measured, this`shiftEntriesTotal, this`shiftFailurePercent
      modifies this`borders, stackingBuffers
      ensures shiftDistribution.Length == searchWidth * drizzleFactor * 2
      ensures outcome == Pass <==> AllInRange(Flatten(fss, |fss|), searchWidth * drizzleFactor * 2)
      ensures outcome == Pass ==>
        measured == Flatten(fss, |fss|) && ShiftsCounted() &&
        shiftEntriesTotal == |measured| == UsedPairs(fss, |fss|) &&
        shiftFailurePercent == FailurePercent(shiftFailureCounter, shiftEntriesTotal) &&
        borders == BordersAll(Borders(0, 0, 0, 0), alignmentPoints, drizzleFactor, frames, fss, |fss|)
      ensures outcome == Pass ==>
        forall a, i, j :: 0 <= a < |stackingBuffers| && 0 <= i < stackingBuffers[a].Length0 && 0 <= j < stackingBuffers[a].Length1 ==>
          stackingBuffers[a][i, j] == old(stackingBuffers[a][i, j]) + Stacked(frames, alignmentPoints, drizzleFactor, fss, |fss|, a, i, j)
    {
      StartShiftStatistics();
      borders := Borders(0, 0, 0, 0);
      outcome := StackEach(frames, fss);
      if outcome == IndexError {
        return;
      }
      FinishShiftStatistics();
      FlattenLength(fss, |fss|, |alignmentPoints|);
    }

    /** The frame loop of stacking: stacks the frames one after the other
        and stops at the first IndexError. */
    method StackEach(frames: seq<seq<seq<real>>>, fss: seq<FrameShifts>) returns (outcome: Outcome)
      requires Valid() && ShiftsCounted()
      requires AllFit(alignmentPoints, drizzleFactor, frames, fss)
      modifies stackingBuffers, shiftDistribution, this`shiftFailureCounter, this`measured, this`borders
      ensures ShiftsCounted()
      ensures outcome == Pass <==> AllInRange(Flatten(fss, |fss|), shiftDistribution.Length)
      ensures outcome == Pass ==>
        measured == old(measured) + Flatten(fss, |fss|) &&
        borders == BordersAll(old(borders), alignmentPoints, drizzleFactor, frames, fss, |fss|)
      ensures outcome == Pass ==>
        forall a, i, j :: 0 <= a < |stackingBuffers| && 0 <= i < stackingBuffers[a].Length0 && 0 <= j < stackingBuffers[a].Length1 ==>
          stackingBuffers[a][i, j] == old(stackingBuffers[a][i, j]) + Stacked(frames, alignmentPoints, drizzleFactor, fss, |fss|, a, i, j)
    {
      outcome := Pass;
      var f := 0;
      while f < |frames|
        invariant 0 <= f <= |frames| && outcome == Pass
        invariant ShiftsCounted() && measured == old(measured) + Flatten(fss, f)
        invariant borders == BordersAll(old(borders), alignmentPoints, drizzleFactor, frames, fss, f)
        invariant forall a, i, j :: 0 <= a < |stackingBuffers| && 0 <= i < stackingBuffers[a].Length0 && 0 <= j < stackingBuffers[a].Length1 ==>
          stackingBuffers[a][i, j] == old(stackingBuffers[a][i, j]) + Stacked(frames, alignmentPoints, drizzleFactor, fss, f, a, i, j)
      {
        outcome := StackFrame(frames[f], fss[f]);
        if outcome == IndexError {
          AllInRangeFlatten(fss, |fss|, shiftDistribution.Length);
          return;
        }
        AppendAssoc(old(measured), Flatten(fss, f), fss[f].shifts);
        f := f + 1;
      }
      AllInRangeConcat(old(measured), Flatten(fss, |fss|), shiftDistribution.Length);
    }

    /** One step of StackFrame: records the warp shift measured at the
        frame's k-th used point and, when it fits the histogram, adds the
        shifted patch into that point's stacking buffer. */
    method StackPoint(frame: seq<seq<real>>, fs: FrameShifts, k: nat) returns (outcome: Outcome)
      requires Valid() && ShiftsCounted() && FitsPoints(fs, |alignmentPoints|) && k < |fs.used|
      requires Rectangular(frame)
      requires PatchesMeetFrame(alignmentPoints, drizzleFactor, fs, |frame|, FrameWidth(frame))
      modifies stackingBuffers, shiftDistribution, this`shiftFailureCounter, this`measured, this`borders
      ensures ShiftsCounted()
      ensures outcome == IndexError <==> fs.shifts[k].success && ShiftBucket(fs.shifts[k]) >= shiftDistribution.Length
      ensures outcome == Pass ==>
        measured == old(measured) + [fs.shifts[k]] &&
        borders == Widen(old(borders), alignmentPoints[fs.used[k]], ShiftY(fs, drizzleFactor, k), ShiftX(fs, drizzleFactor, k),
                         |frame|, FrameWidth(frame))
      ensures outcome == Pass ==>
        forall a, i, j :: 0 <= a < |stackingBuffers| && 0 <= i < stackingBuffers[a].Length0 && 0 <= j < stackingBuffers[a].Length1 ==>
          stackingBuffers[a][i, j] == old(stackingBuffers[a][i, j]) + Step(frame, alignmentPoints, drizzleFactor, fs, k, a, i, j)
    {
      outcome := RecordShift(fs.shifts[k]);
      if outcome == IndexError {
        return;
      }
      RemapInto(frame, fs, k);
    }

    /** Adds the frame's patch for its k-th used point, shifted by the
        total shift, into that point's stacking buffer; the other buffers
        stay as they are. */
    method RemapInto(frame: seq<seq<real>>, fs: FrameShifts, k: nat)
      requires Valid() && FitsPoints(fs, |alignmentPoints|) && k < |fs.used|
      requires Rectangular(frame)
      requires PatchesMeetFrame(alignmentPoints, drizzleFactor, fs, |frame|, FrameWidth(frame))
      modifies stackingBuffers, this`borders
      ensures borders == Widen(old(borders), alignmentPoints[fs.used[k]], ShiftY(fs, drizzleFactor, k), ShiftX(fs, drizzleFactor, k),
                               |frame|, FrameWidth(frame))
      ensures forall a, i, j :: 0 <= a < |stackingBuffers| && 0 <= i < stackingBuffers[a].Length0 && 0 <= j < stackingBuffers[a].Length1 ==>
        stackingBuffers[a][i, j] == old(stackingBuffers[a][i, j]) + Step(frame, alignmentPoints, drizzleFactor, fs, k, a, i, j)
    {
      var a := fs.used[k];
      var ap := alignmentPoints[a];
      RemapRigid(frame, stackingBuffers[a], ShiftY(fs, drizzleFactor, k), ShiftX(fs, drizzleFactor, k),
                 ap.patchYLow, ap.patchYHigh, ap.patchXLow, ap.patchXHigh);
    }

    /** Each stacking buffer has its point's patch shape. */
    lemma ContentsShaped()
      requires Valid()
      ensures Shaped(alignmentPoints, Contents(stackingBuffers))
    {
      var bs := Contents(stackingBuffers);
      forall a | 0 <= a < |alignmentPoints|
        ensures ShapedLike(alignmentPoints[a], bs[a])
      {
        assert WellPlaced(alignmentPoints[a], dimYDrizzled, dimXDrizzled);
      }
    }

    /** Pixel (y, x) of the merged stack normalised by the accumulated weights. */
    function NormalisedPixel(y: int, x: int): real
      requires Valid() && WeightsOf(alignmentPoints, apWeights, dimYDrizzled, dimXDrizzled) && Shaped(alignmentPoints, apWeights)
      requires 0 <= y < dimYDrizzled && 0 <= x < dimXDrizzled
      reads stackingBuffers, this`apWeights
    {
      ContentsShaped();
      Normalised(alignmentPoints, apWeights, Contents(stackingBuffers), dimYDrizzled, dimXDrizzled, stackSize, y, x)
    }

    /** The final value of image pixel (y, x): the normalised stack, blended
        with the background under the pixel's foreground weight when the
        patches leave holes. */
    function FinalPixel(background: array2?<real>, y: int, x: int): real
      requires Valid() && WeightsOf(alignmentPoints, apWeights, dimYDrizzled, dimXDrizzled) && Shaped(alignmentPoints, apWeights)
      requires numberStackingHoles > 0 ==>
        background != null && background.Length0 == dimYDrizzled && background.Length1 == dimXDrizzled && BlendLimit() != 0.0
      requires 0 <= y < dimYDrizzled && 0 <= x < dimXDrizzled
      reads stackingBuffers, this`apWeights, this`numberStackingHoles, background
    {
      if numberStackingHoles > 0
      then BlendValue(NormalisedPixel(y, x), background[y, x],
                      Clip01(AccumulatedWeight(alignmentPoints, apWeights, stackSize, y, x) / BlendLimit()))
      else NormalisedPixel(y, x)
    }

    /** Merges the stacking buffers into the image buffer, normalises it by
        the accumulated weights, blends it with the background (given in
        drizzled coordinates) when there are holes, and trims the borders
        the warp shifts left incomplete. */
    method MergeAlignmentPointBuffers(background: array2?<real>) returns (image: array2<real>)
      requires Valid() && MergeReady()
      requires WeightsOf(alignmentPoints, apWeights, dimYDrizzled, dimXDrizzled) && Shaped(alignmentPoints, apWeights)
      requires Accumulated()
      requires forall y, x :: 0 <= y < dimYDrizzled && 0 <= x < dimXDrizzled ==> stackedImageBuffer[y, x] == 0.0
      requires numberStackingHoles > 0 ==>
        background != null && background != stackedImageBuffer &&
        background.Length0 == dimYDrizzled && background.Length1 == dimXDrizzled && BlendLimit() != 0.0
      modifies this`stackedImageBuffer, stackedImageBuffer
      ensures image == stackedImageBuffer
      ensures var t := TrimBounds(borders, dimYDrizzled, dimXDrizzled);
        image.Length0 == t.0.1 - t.0.0 && image.Length1 == t.1.1 - t.1.0 &&
        forall i, j :: 0 <= i < image.Length0 && 0 <= j < image.Length1 ==>
          image[i, j] == old(FinalPixel(background, t.0.0 + i, t.1.0 + j))
    {
      MergeAndBlend(background);
      image := Trim();
    }

    /** Trims the image buffer to the rows and columns TrimBounds keeps,
        when some border is non-zero. */
    method Trim() returns (image: array2<real>)
      requires stackedImageBuffer.Length0 == dimYDrizzled && stackedImageBuffer.Length1 == dimXDrizzled
      modifies this`stackedImageBuffer
      ensures image == stackedImageBuffer
      ensures var t := TrimBounds(borders, dimYDrizzled, dimXDrizzled);
        image.Length0 == t.0.1 - t.0.0 && image.Length1 == t.1.1 - t.1.0 &&
        forall i, j :: 0 <= i < image.Length0 && 0 <= j < image.Length1 ==>
          image[i, j] == old(stackedImageBuffer)[t.0.0 + i, t.1.0 + j]
    {
      var t := TrimBounds(borders, dimYDrizzled, dimXDrizzled);
      if AnyBorder(borders) {
        image := CutOut(stackedImageBuffer, t.0.0, t.0.1, t.1.0, t.1.1);
        stackedImageBuffer := image;
      } else {
        image := stackedImageBuffer;
      }
    }

    /** The merge up to the blending: the image buffer then holds every
        pixel's final value, untrimmed. */
    method MergeAndBlend(background: array2?<real>)
      requires Valid() && MergeReady()
      requires WeightsOf(alignmentPoints, apWeights, dimYDrizzled, dimXDrizzled) && Shaped(alignmentPoints, apWeights)
      requires Accumulated()
      requires forall y, x :: 0 <= y < dimYDrizzled && 0 <= x < dimXDrizzled ==> stackedImageBuffer[y, x] == 0.0
      requires numberStackingHoles > 0 ==>
        background != null && background != stackedImageBuffer &&
        background.Length0 == dimYDrizzled && background.Length1 == dimXDrizzled && BlendLimit() != 0.0
      modifies this`stackedImageBuffer, stackedImageBuffer
      ensures stackedImageBuffer.Length0 == dimYDrizzled && stackedImageBuffer.Length1 == dimXDrizzled
      ensures forall y, x :: 0 <= y < dimYDrizzled && 0 <= x < dimXDrizzled ==>
        stackedImageBuffer[y, x] == old(FinalPixel(background, y, x))
    {
      MergeAndNormalise();
      if numberStackingHoles > 0 {
        stackedImageBuffer := BlendWithBackground(stackedImageBuffer, background, sumSingleFrameWeights, BlendLimit());
      }
    }

    /** The merge and the normalisation: the image buffer then holds every
        pixel's normalised value. */
    method MergeAndNormalise()
      requires Valid() && MergeReady()
      requires WeightsOf(alignmentPoints, apWeights, dimYDrizzled, dimXDrizzled) && Shaped(alignmentPoints, apWeights)
      requires Accumulated()
      requires forall y, x :: 0 <= y < dimYDrizzled && 0 <= x < dimXDrizzled ==> stackedImageBuffer[y, x] == 0.0
      modifies stackedImageBuffer
      ensures forall y, x :: 0 <= y < dimYDrizzled && 0 <= x < dimXDrizzled ==>
        stackedImageBuffer[y, x] == old(NormalisedPixel(y, x))
    {
      ContentsShaped();
      ghost var bs := Contents(stackingBuffers);
      MergeBuffers(bs);
      Normalise(bs);
    }

    /** Adds every stacking buffer, times its point's weights, into the
        zero image buffer at its patch. */
    method MergeBuffers(ghost bs: seq<seq<seq<real>>>)
      requires Valid() && MergeReady() && Shaped(alignmentPoints, apWeights)
      requires bs == Contents(stackingBuffers) && Shaped(alignmentPoints, bs)
      requires forall y, x :: 0 <= y < dimYDrizzled && 0 <= x < dimXDrizzled ==> stackedImageBuffer[y, x] == 0.0
      modifies stackedImageBuffer
      ensures forall y, x :: 0 <= y < dimYDrizzled && 0 <= x < dimXDrizzled ==>
        stackedImageBuffer[y, x] == MergedSum(alignmentPoints, apWeights, bs, |alignmentPoints|, y, x)
    {
      var a := 0;
      while a < |alignmentPoints|
        invariant 0 <= a <= |alignmentPoints|
        invariant forall y, x :: 0 <= y < dimYDrizzled && 0 <= x < dimXDrizzled ==>
          stackedImageBuffer[y, x] == MergedSum(alignmentPoints, apWeights, bs, a, y, x)
      {
        MergePoint(a, bs);
        a := a + 1;
      }
    }

    /** stacked_image_buffer[patch of a] += stacking_buffer * weights_yx. */
    method MergePoint(a: nat, ghost bs: seq<seq<seq<real>>>)
      requires Valid() && MergeReady() && Shaped(alignmentPoints, apWeights) && a < |alignmentPoints|
      requires Shaped(alignmentPoints, bs) &&
        forall i, j :: 0 <= i < stackingBuffers[a].Length0 && 0 <= j < stackingBuffers[a].Length1 ==>
          bs[a][i][j] == stackingBuffers[a][i, j]
      requires forall y, x :: 0 <= y < dimYDrizzled && 0 <= x < dimXDrizzled ==>
        stackedImageBuffer[y, x] == MergedSum(alignmentPoints, apWeights, bs, a, y, x)
      modifies stackedImageBuffer
      ensures forall y, x :: 0 <= y < dimYDrizzled && 0 <= x < dimXDrizzled ==>
        stackedImageBuffer[y, x] == MergedSum(alignmentPoints, apWeights, bs, a + 1, y, x)
    {
      var ap := alignmentPoints[a];
      assert WellPlaced(ap, dimYDrizzled, dimXDrizzled);
      ghost var src := bs[a];
      assert stackingBuffers[a].Length0 == ap.patchYHigh - ap.patchYLow;
      assert stackingBuffers[a].Length1 == ap.patchXHigh - ap.patchXLow;
      AddProduct(stackedImageBuffer, stackingBuffers[a], apWeights[a], ap.patchYLow, ap.patchXLow);
      forall y, x | 0 <= y < dimYDrizzled && 0 <= x < dimXDrizzled
        ensures stackedImageBuffer[y, x] == MergedSum(alignmentPoints, apWeights, bs, a + 1, y, x)
      {
        assert old(stackedImageBuffer[y, x]) == MergedSum(alignmentPoints, apWeights, bs, a, y, x);
        MergedSumNext(alignmentPoints, apWeights, bs, a, y, x);
        if InPatch(ap, y, x) {
          assert src[y - ap.patchYLow][x - ap.patchXLow] == stackingBuffers[a][y - ap.patchYLow, x - ap.patchXLow];
        }
      }
    }

    /** stacked_image_buffer /= sum_single_frame_weights. */
    method Normalise(ghost bs: seq<seq<seq<real>>>)
      requires Valid() && MergeReady()
      requires WeightsOf(alignmentPoints, apWeights, dimYDrizzled, dimXDrizzled) && Shaped(alignmentPoints, apWeights)
      requires Accumulated() && Shaped(alignmentPoints, bs)
      requires forall y, x :: 0 <= y < dimYDrizzled && 0 <= x < dimXDrizzled ==>
        stackedImageBuffer[y, x] == MergedSum(alignmentPoints, apWeights, bs, |alignmentPoints|, y, x)
      modifies stackedImageBuffer
      ensures forall y, x :: 0 <= y < dimYDrizzled && 0 <= x < dimXDrizzled ==>
        stackedImageBuffer[y, x] ==
          Normalised(alignmentPoints, apWeights, bs, dimYDrizzled, dimXDrizzled, stackSize, y, x)
    {
      forall y, x | 0 <= y < dimYDrizzled && 0 <= x < dimXDrizzled
        ensures sumSingleFrameWeights[y, x] != 0.0
      {
        AccumulatedPositive(alignmentPoints, apWeights, dimYDrizzled, dimXDrizzled, stackSize, y, x);
      }
      DivideCells(stackedImageBuffer, sumSingleFrameWeights);
    }

    /** The number of entries, histogram sum plus failures, and the failure
        percentage; by the conservation of the histogram the entries are
        exactly the measurements recorded. */
    method FinishShiftStatistics()
      requires ShiftsCounted()
      modifies this`shiftEntriesTotal, this`shiftFailurePercent
      ensures shiftEntriesTotal == SumBuckets(shiftDistribution[..], shiftDistribution.Length) + shiftFailureCounter
      ensures shiftEntriesTotal == |measured|
      ensures shiftFailurePercent == FailurePercent(shiftFailureCounter, shiftEntriesTotal)
    {
      var sum := 0;
      var b := 0;
      while b < shiftDistribution.Length
        invariant 0 <= b <= shiftDistribution.Length
        invariant sum == SumBuckets(shiftDistribution[..], b)
      {
        sum := sum + shiftDistribution[b];
        b := b + 1;
      }
      shiftEntriesTotal := sum + shiftFailureCounter;
      HistogramConservation(shiftDistribution[..], measured);
      shiftFailurePercent := FailurePercent(shiftFailureCounter, shiftEntriesTotal);
    }

    /** The shift table of the protocol: the columns run up to the last
        non-zero bucket, and there is no table when all buckets are 0. */
    method PrintShiftTable() returns (table: ShiftTable)
      requires shiftEntriesTotal == SumBuckets(shiftDistribution[..], shiftDistribution.Length) + shiftFailureCounter
      ensures table == NoBuckets <==> shiftDistribution.Length == 0
      ensures table == EmptyTable <==>
        shiftDistribution.Length > 0 && forall b :: 0 <= b < shiftDistribution.Length ==> shiftDistribution[b] == 0
      ensures table.Table? ==>
        var n := ShiftTableColumns(shiftDistribution[..]);
        n > 0 && shiftEntriesTotal > 0 &&
        table == Table(ShiftHeader + ShiftCells(n) + "|", RuleHeader + RuleCells(n) + "-",
                       BucketPercents(shiftDistribution[..], n, shiftEntriesTotal), shiftFailurePercent)
    {
      if shiftDistribution.Length == 0 {
        return NoBuckets;
      }
      var maxIndex := LastNonZero();
      ColumnsIffNonZero(shiftDistribution[..]);
      if maxIndex == 0 {
        return EmptyTable;
      }
      SumBucketsAtLeast(shiftDistribution[..], maxIndex - 1);
      var s, line, percents := TableLines(shiftDistribution[..], maxIndex, shiftEntriesTotal);
      table := Table(s, line, percents, shiftFailurePercent);
    }

    /** One past the index of the last non-zero bucket, 0 when there is none. */
    method LastNonZero() returns (n: nat)
      ensures n == ShiftTableColumns(shiftDistribution[..])
    {
      n := 0;
      var b := 0;
      while b < shiftDistribution.Length
        invariant 0 <= b <= shiftDistribution.Length
        invariant n == ShiftTableColumns(shiftDistribution[..b])
      {
        assert shiftDistribution[..b + 1][..b] == shiftDistribution[..b];
        if shiftDistribution[b] != 0 {
          n := b + 1;
        }
        b := b + 1;
      }
      assert shiftDistribution[..b] == shiftDistribution[..];
    }

    /** Adds the patch [yLow, yHigh) x [xLow, xHigh) of frame, shifted by
        (shiftY, shiftX), into buffer. Where the shifted patch reaches past
        the frame, only its part inside the frame is added, and the border
        widths grow to the overshoot. */
    method RemapRigid(frame: seq<seq<real>>, buffer: array2<real>, shiftY: int, shiftX: int,
                      yLow: nat, yHigh: nat, xLow: nat, xHigh: nat)
      requires Rectangular(frame)
      requires buffer.Length0 == yHigh - yLow && buffer.Length1 == xHigh - xLow
      requires Overlaps(yLow, yHigh, shiftY, |frame|) && Overlaps(xLow, xHigh, shiftX, FrameWidth(frame))
      modifies buffer, this`borders
      ensures forall i, j :: 0 <= i < buffer.Length0 && 0 <= j < buffer.Length1 ==>
        buffer[i, j] == old(buffer[i, j]) + ShiftedPixel(frame, i, j, yLow + shiftY, xLow + shiftX)
      ensures borders == Borders(
        Max(old(borders.yLow), OvershootLow(yLow, shiftY)),
        Max(old(borders.yHigh), OvershootHigh(yHigh, shiftY, |frame|)),
        Max(old(borders.xLow), OvershootLow(xLow, shiftX)),
        Max(old(borders.xHigh), OvershootHigh(xHigh, shiftX, FrameWidth(frame))))
    {
      var yLowSource, yHighSource, borderYLow, borderYHigh :=
        ClipAxis(yLow, yHigh, shiftY, |frame|, borders.yLow, borders.yHigh);
      var xLowSource, xHighSource, borderXLow, borderXHigh :=
        ClipAxis(xLow, xHigh, shiftX, FrameWidth(frame), borders.xLow, borders.xHigh);
      borders := Borders(borderYLow, borderYHigh, borderXLow, borderXHigh);
      var yLowTarget := yLowSource - (yLow + shiftY);
      var xLowTarget := xLowSource - (xLow + shiftX);
      AddRegion(buffer, frame, yLowTarget, xLowTarget, yLowSource, xLowSource,
                yHighSource - yLowSource, xHighSource - xLowSource);
    }

    /** The clipping along one axis: the source range [low + shift,
        high + shift) is cut to [0, size), and the border widths become
        the larger of their old values and the overshoot on their side. */
    static method ClipAxis(low: nat, high: nat, shift: int, size: nat, borderLow: nat, borderHigh: nat)
      returns (lowSource: nat, highSource: nat, newBorderLow: nat, newBorderHigh: nat)
      requires Overlaps(low, high, shift, size)
      ensures lowSource == (if low + shift < 0 then 0 else low + shift)
      ensures highSource == (if high + shift > size then size else high + shift)
      ensures lowSource <= highSource <= size
      ensures newBorderLow == Max(borderLow, OvershootLow(low, shift))
      ensures newBorderHigh == Max(borderHigh, OvershootHigh(high, shift, size))
    {
      var lowS := low + shift;
      var highS := high + shift;
      newBorderLow, newBorderHigh := borderLow, borderHigh;
      if lowS < 0 {
        var lowTarget := -lowS;
        lowS := 0;
        newBorderLow := Max(newBorderLow, lowTarget);
      }
      if highS > size {
        newBorderHigh := Max(newBorderHigh, highS - size);
        highS := size;
      }
      lowSource, highSource := lowS, highS;
    }
  }
}
