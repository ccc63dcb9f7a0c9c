/**
  Blending weights of alignment-point patches.

  Each alignment point owns a rectangular patch of the (drizzled) image.
  Along each axis its weight ramps up linearly from the patch's low border
  to 1 at the alignment point and back down towards the high border; a
  patch touching the image border keeps weight 1 on that side. The 2-D
  weight of a pixel is the smaller of its two 1-D weights. Weights are
  exact rationals here.
*/
module Weights {
  import opened Grids

  /** An alignment point in drizzled coordinates: its centre (y, x) and its
      patch [patchYLow, patchYHigh) x [patchXLow, patchXHigh). */
  datatype AlignmentPoint = AlignmentPoint(
    y: nat, x: nat,
    patchYLow: nat, patchYHigh: nat,
    patchXLow: nat, patchXHigh: nat)

  /** The patch lies in the dimY x dimX image and contains the centre. */
  predicate WellPlaced(ap: AlignmentPoint, dimY: nat, dimX: nat)
  {
    ap.patchYLow <= ap.y < ap.patchYHigh <= dimY &&
    ap.patchXLow <= ap.x < ap.patchXHigh <= dimX
  }

  predicate InPatch(ap: AlignmentPoint, y: int, x: int)
  {
    ap.patchYLow <= y < ap.patchYHigh && ap.patchXLow <= x < ap.patchXHigh
  }

  function Min(a: real, b: real): real
  {
    if a <= b then a else b
  }

  lemma FractionInUnit(a: nat, b: nat)
    requires 0 < a <= b
    ensures 0.0 < a as real / b as real <= 1.0
  {
    var q := a as real / b as real;
    assert q * b as real == a as real;
  }

  lemma FractionBelowOne(a: nat, b: nat)
    requires 0 < a < b
    ensures a as real / b as real < 1.0
  {
    var q := a as real / b as real;
    assert q * b as real == a as real;
  }

  lemma FractionLess(a: nat, a': nat, b: nat)
    requires a < a' && 0 < b
    ensures a as real / b as real < a' as real / b as real
  {
    var q := a as real / b as real;
    var q' := a' as real / b as real;
    assert q * b as real == a as real;
    assert q' * b as real == a' as real;
    assert (q' - q) * b as real == (a' - a) as real;
  }

  /** The 1-D weights over [patchLow, patchHigh) for an alignment point at
      boxCenter: below the centre, offset k carries (k+1)/(c+1) with c the
      centre's offset; from the centre on, offset c+j carries (d-j)/d with d
      the distance from the centre to patchHigh. An extended side carries 1
      throughout. */
  function OneDimWeight(patchLow: nat, patchHigh: nat, boxCenter: nat, extendLow: bool, extendHigh: bool): (w: seq<real>)
    requires patchLow <= boxCenter < patchHigh
    ensures |w| == patchHigh - patchLow
    ensures forall k :: 0 <= k < |w| ==> 0.0 < w[k] <= 1.0
    ensures w[boxCenter - patchLow] == 1.0
  {
    seq(patchHigh - patchLow, k requires 0 <= k < patchHigh - patchLow =>
      RampWeight(k, boxCenter - patchLow, patchHigh - boxCenter, extendLow, extendHigh))
  }

  /** The weight at offset k of a patch whose centre is at offset c and
      whose high border lies d past the centre. */
  function RampWeight(k: nat, c: nat, d: nat, extendLow: bool, extendHigh: bool): (v: real)
    requires k < c + d
    ensures 0.0 < v <= 1.0
    ensures k == c ==> v == 1.0
  {
    if k < c then
      if extendLow then 1.0 else FractionInUnit(k + 1, c + 1); (k + 1) as real / (c + 1) as real
    else
      if extendHigh then 1.0 else FractionInUnit(d - (k - c), d); (d - (k - c)) as real / d as real
  }

  /** The end points named in the docstring of one_dim_weight: without extension the ramp
      starts at 1/(c+1) on the low border and ends at 1/d on the last
      index, d being the distance from the centre to the high border. */
  lemma OneDimWeightEnds(patchLow: nat, patchHigh: nat, boxCenter: nat, extendLow: bool, extendHigh: bool)
    requires patchLow <= boxCenter < patchHigh
    ensures var w := OneDimWeight(patchLow, patchHigh, boxCenter, extendLow, extendHigh);
      (!extendLow && patchLow < boxCenter ==> w[0] == 1.0 / (boxCenter - patchLow + 1) as real) &&
      (!extendHigh ==> w[|w| - 1] == 1.0 / (patchHigh - boxCenter) as real)
  {
  }

  /** Below the centre the weights rise strictly towards 1, or are all 1
      when the low side is extended. */
  lemma OneDimWeightRises(patchLow: nat, patchHigh: nat, boxCenter: nat, extendLow: bool, extendHigh: bool)
    requires patchLow <= boxCenter < patchHigh
    ensures var w := OneDimWeight(patchLow, patchHigh, boxCenter, extendLow, extendHigh);
      var c := boxCenter - patchLow;
      (extendLow ==> forall k :: 0 <= k <= c ==> w[k] == 1.0) &&
      (!extendLow ==> forall k, k' :: 0 <= k < k' <= c ==> w[k] < w[k'])
  {
    var w := OneDimWeight(patchLow, patchHigh, boxCenter, extendLow, extendHigh);
    var c := boxCenter - patchLow;
    if !extendLow {
      forall k, k' | 0 <= k < k' <= c ensures w[k] < w[k'] {
        assert w[k] == (k + 1) as real / (c + 1) as real;
        if k' == c {
          FractionBelowOne(k + 1, c + 1);
        } else {
          assert w[k'] == (k' + 1) as real / (c + 1) as real;
          FractionLess(k + 1, k' + 1, c + 1);
        }
      }
    }
  }

  /** From the centre on the weights fall strictly, or are all 1 when the
      high side is extended. */
  lemma OneDimWeightFalls(patchLow: nat, patchHigh: nat, boxCenter: nat, extendLow: bool, extendHigh: bool)
    requires patchLow <= boxCenter < patchHigh
    ensures var w := OneDimWeight(patchLow, patchHigh, boxCenter, extendLow, extendHigh);
      var c := boxCenter - patchLow;
      (extendHigh ==> forall k :: c <= k < |w| ==> w[k] == 1.0) &&
      (!extendHigh ==> forall k, k' :: c <= k < k' < |w| ==> w[k'] < w[k])
  {
    var w := OneDimWeight(patchLow, patchHigh, boxCenter, extendLow, extendHigh);
    var c := boxCenter - patchLow;
    var d := patchHigh - boxCenter;
    if !extendHigh {
      forall k, k' | c <= k < k' < |w| ensures w[k'] < w[k] {
        assert w[k] == (d - (k - c)) as real / d as real;
        assert w[k'] == (d - (k' - c)) as real / d as real;
        FractionLess(d - (k' - c), d - (k - c), d);
      }
    }
  }

  lemma FractionAtLeast(a: nat, b: nat, bound: nat)
    requires 1 <= a && 1 <= b <= bound
    ensures a as real / b as real >= 1.0 / bound as real
  {
    var q := a as real / b as real;
    var r := 1.0 / bound as real;
    assert q * b as real == a as real;
    assert r * bound as real == 1.0;
    assert r * b as real <= r * bound as real;
  }

  /** No weight of a patch of at most bound cells is below 1/bound. */
  lemma OneDimWeightAtLeast(patchLow: nat, patchHigh: nat, boxCenter: nat, extendLow: bool, extendHigh: bool, bound: nat)
    requires patchLow <= boxCenter < patchHigh && patchHigh - patchLow <= bound
    ensures var w := OneDimWeight(patchLow, patchHigh, boxCenter, extendLow, extendHigh);
      forall k :: 0 <= k < |w| ==> w[k] >= 1.0 / bound as real
  {
    var w := OneDimWeight(patchLow, patchHigh, boxCenter, extendLow, extendHigh);
    var c := boxCenter - patchLow;
    var d := patchHigh - boxCenter;
    forall k | 0 <= k < |w| ensures w[k] >= 1.0 / bound as real {
      FractionAtLeast(1, 1, bound);
      if k < c {
        FractionAtLeast(k + 1, c + 1, bound);
      } else {
        FractionAtLeast(d - (k - c), d, bound);
      }
    }
  }

  /** The 2-D weights: the outer minimum of the row and column ramps. */
  function PatchWeights(wy: seq<real>, wx: seq<real>): (m: seq<seq<real>>)
    ensures |m| == |wy| && forall i :: 0 <= i < |m| ==> |m[i]| == |wx|
  {
    seq(|wy|, i requires 0 <= i < |wy| => seq(|wx|, j requires 0 <= j < |wx| => Min(wy[i], wx[j])))
  }

  /** Each 2-D weight is the smaller 1-D weight: no larger than either and
      equal to one of them. */
  lemma PatchWeightsAreMinimum(wy: seq<real>, wx: seq<real>, i: nat, j: nat)
    requires i < |wy| && j < |wx|
    ensures PatchWeights(wy, wx)[i][j] <= wy[i] && PatchWeights(wy, wx)[i][j] <= wx[j]
    ensures PatchWeights(wy, wx)[i][j] == wy[i] || PatchWeights(wy, wx)[i][j] == wx[j]
  {
  }

  /** The extend flags: a side of a patch is extended exactly when it lies
      on the image border. */
  function ExtendFlags(ap: AlignmentPoint, dimY: nat, dimX: nat): (flags: (bool, bool, bool, bool))
    ensures flags.0 <==> ap.patchYLow == 0
    ensures flags.1 <==> ap.patchYHigh == dimY
    ensures flags.2 <==> ap.patchXLow == 0
    ensures flags.3 <==> ap.patchXHigh == dimX
  {
    (ap.patchYLow == 0, ap.patchYHigh == dimY, ap.patchXLow == 0, ap.patchXHigh == dimX)
  }

  /** The blending weights of one alignment point in a dimY x dimX
      (drizzled) image. */
  function APWeights(ap: AlignmentPoint, dimY: nat, dimX: nat): (m: seq<seq<real>>)
    requires WellPlaced(ap, dimY, dimX)
    ensures |m| == ap.patchYHigh - ap.patchYLow
    ensures forall i :: 0 <= i < |m| ==> |m[i]| == ap.patchXHigh - ap.patchXLow
    ensures forall i, j :: 0 <= i < |m| && 0 <= j < |m[i]| ==> 0.0 < m[i][j] <= 1.0
    ensures m[ap.y - ap.patchYLow][ap.x - ap.patchXLow] == 1.0
  {
    var flags := ExtendFlags(ap, dimY, dimX);
    var wy := OneDimWeight(ap.patchYLow, ap.patchYHigh, ap.y, flags.0, flags.1);
    var wx := OneDimWeight(ap.patchXLow, ap.patchXHigh, ap.x, flags.2, flags.3);
    PatchWeights(wy, wx)
  }

  /** A patch on the top (bottom) image border does not fade towards it:
      every row from that border to the centre row carries the weights of
      the centre row. */
  lemma APWeightsFlatAtRowBorder(ap: AlignmentPoint, dimY: nat, dimX: nat)
    requires WellPlaced(ap, dimY, dimX)
    ensures var m := APWeights(ap, dimY, dimX);
      var cy := ap.y - ap.patchYLow;
      (ap.patchYLow == 0 ==> forall i, j :: 0 <= i <= cy && 0 <= j < |m[i]| ==> m[i][j] == m[cy][j]) &&
      (ap.patchYHigh == dimY ==> forall i, j :: cy <= i < |m| && 0 <= j < |m[i]| ==> m[i][j] == m[cy][j])
  {
    var flags := ExtendFlags(ap, dimY, dimX);
    OneDimWeightRises(ap.patchYLow, ap.patchYHigh, ap.y, flags.0, flags.1);
    OneDimWeightFalls(ap.patchYLow, ap.patchYHigh, ap.y, flags.0, flags.1);
  }

  /** A patch on the left (right) image border does not fade towards it:
      every column from that border to the centre column carries the
      weights of the centre column. */
  lemma APWeightsFlatAtColumnBorder(ap: AlignmentPoint, dimY: nat, dimX: nat)
    requires WellPlaced(ap, dimY, dimX)
    ensures var m := APWeights(ap, dimY, dimX);
      var cx := ap.x - ap.patchXLow;
      (ap.patchXLow == 0 ==> forall i, j :: 0 <= i < |m| && 0 <= j <= cx ==> m[i][j] == m[i][cx]) &&
      (ap.patchXHigh == dimX ==> forall i, j :: 0 <= i < |m| && cx <= j < |m[i]| ==> m[i][j] == m[i][cx])
  {
    var flags := ExtendFlags(ap, dimY, dimX);
    OneDimWeightRises(ap.patchXLow, ap.patchXHigh, ap.x, flags.2, flags.3);
    OneDimWeightFalls(ap.patchXLow, ap.patchXHigh, ap.x, flags.2, flags.3);
  }

  /** The weights are 1 at the alignment point and fall off in every axis
      direction away from it, on a side that is not extended. */
  lemma APWeightsPeakAtCentre(ap: AlignmentPoint, dimY: nat, dimX: nat, i: nat, j: nat)
    requires WellPlaced(ap, dimY, dimX)
    requires i < ap.patchYHigh - ap.patchYLow && j < ap.patchXHigh - ap.patchXLow
    ensures APWeights(ap, dimY, dimX)[i][j] <= APWeights(ap, dimY, dimX)[ap.y - ap.patchYLow][ap.x - ap.patchXLow]
  {
  }

  /** No 2-D weight of a patch whose sides are at most bound is below 1/bound. */
  lemma APWeightsAtLeast(ap: AlignmentPoint, dimY: nat, dimX: nat, bound: nat)
    requires WellPlaced(ap, dimY, dimX)
    requires ap.patchYHigh - ap.patchYLow <= bound && ap.patchXHigh - ap.patchXLow <= bound
    ensures var m := APWeights(ap, dimY, dimX);
      forall i, j :: 0 <= i < |m| && 0 <= j < |m[i]| ==> m[i][j] >= 1.0 / bound as real
  {
    var flags := ExtendFlags(ap, dimY, dimX);
    OneDimWeightAtLeast(ap.patchYLow, ap.patchYHigh, ap.y, flags.0, flags.1, bound);
    OneDimWeightAtLeast(ap.patchXLow, ap.patchXHigh, ap.x, flags.2, flags.3, bound);
  }

  /** m has the shape of ap's patch. */
  predicate ShapedLike(ap: AlignmentPoint, m: seq<seq<real>>)
  {
    ap.patchYLow <= ap.patchYHigh && ap.patchXLow <= ap.patchXHigh &&
    IsBlock(m, ap.patchYHigh - ap.patchYLow, ap.patchXHigh - ap.patchXLow)
  }

  /** The value a block m of ap's patch shape (its weights, or its
      stacking buffer) gives pixel (y, x): its entry there inside ap's
      patch, 0 outside. */
  function PatchValue(ap: AlignmentPoint, m: seq<seq<real>>, y: int, x: int): real
    requires ShapedLike(ap, m)
  {
    Placed(m, ap.patchYHigh - ap.patchYLow, ap.patchXHigh - ap.patchXLow, ap.patchYLow, ap.patchXLow, y, x)
  }

  /** ws[a] has the shape of the patch of aps[a], for every a. */
  predicate Shaped(aps: seq<AlignmentPoint>, ws: seq<seq<seq<real>>>)
  {
    |ws| == |aps| && forall a :: 0 <= a < |aps| ==> ShapedLike(aps[a], ws[a])
  }

  /** ws[a] is the weights_yx of aps[a] for every a, all points well placed. */
  predicate WeightsOf(aps: seq<AlignmentPoint>, ws: seq<seq<seq<real>>>, dimY: nat, dimX: nat)
  {
    |ws| == |aps| &&
    forall a :: 0 <= a < |aps| ==> WellPlaced(aps[a], dimY, dimX) && ws[a] == APWeights(aps[a], dimY, dimX)
  }

  lemma WeightsAreShaped(aps: seq<AlignmentPoint>, ws: seq<seq<seq<real>>>, dimY: nat, dimX: nat)
    requires WeightsOf(aps, ws, dimY, dimX)
    ensures Shaped(aps, ws)
  {
    forall a | 0 <= a < |aps|
      ensures ShapedLike(aps[a], ws[a])
    {
    }
  }

  /** The weights the first n alignment points give pixel (y, x), summed:
      the normalisation the stacked image is divided by, per frame of the
      stack. */
  function Coverage(aps: seq<AlignmentPoint>, ws: seq<seq<seq<real>>>, n: nat, y: int, x: int): real
    requires Shaped(aps, ws) && n <= |aps|
  {
    if n == 0 then 0.0 else Coverage(aps, ws, n - 1, y, x) + PatchValue(aps[n - 1], ws[n - 1], y, x)
  }

  /** Every weight in ws is at least lo. */
  predicate AtLeast(ws: seq<seq<seq<real>>>, lo: real)
  {
    forall a, i, j :: 0 <= a < |ws| && 0 <= i < |ws[a]| && 0 <= j < |ws[a][i]| ==> ws[a][i][j] >= lo
  }

  /** The weights_yx of points whose patch sides are at most bound are all
      at least 1/bound, so positive. */
  lemma WeightsAtLeast(aps: seq<AlignmentPoint>, ws: seq<seq<seq<real>>>, dimY: nat, dimX: nat, bound: nat)
    requires WeightsOf(aps, ws, dimY, dimX) && bound > 0
    requires forall a :: 0 <= a < |aps| ==>
      aps[a].patchYHigh - aps[a].patchYLow <= bound && aps[a].patchXHigh - aps[a].patchXLow <= bound
    ensures AtLeast(ws, 1.0 / bound as real)
  {
    forall a | 0 <= a < |ws|
      ensures var m := ws[a]; forall i, j :: 0 <= i < |m| && 0 <= j < |m[i]| ==> m[i][j] >= 1.0 / bound as real
    {
      APWeightsAtLeast(aps[a], dimY, dimX, bound);
    }
  }

  /** A pixel gets a positive total weight exactly when one of the first n
      patches covers it, and never a negative one. */
  lemma {:induction false} CoverageSign(aps: seq<AlignmentPoint>, ws: seq<seq<seq<real>>>, n: nat, lo: real, y: int, x: int)
    requires Shaped(aps, ws) && n <= |aps| && lo > 0.0 && AtLeast(ws, lo)
    ensures Coverage(aps, ws, n, y, x) >= 0.0
    ensures (exists a :: 0 <= a < n && InPatch(aps[a], y, x)) <==> Coverage(aps, ws, n, y, x) > 0.0
  {
    if n > 0 {
      CoverageSign(aps, ws, n - 1, lo, y, x);
      var ap := aps[n - 1];
      if InPatch(ap, y, x) {
        assert ws[n - 1][y - ap.patchYLow][x - ap.patchXLow] >= lo;
        assert 0 <= n - 1 < n && InPatch(aps[n - 1], y, x);
      } else if exists a :: 0 <= a < n && InPatch(aps[a], y, x) {
        var a :| 0 <= a < n && InPatch(aps[a], y, x);
        assert a < n - 1;
      }
    }
  }

  /** A pixel inside one of the first n patches receives a total weight of
      at least the least weight. */
  lemma {:induction false} CoverageAtLeast(aps: seq<AlignmentPoint>, ws: seq<seq<seq<real>>>, n: nat, lo: real, y: int, x: int)
    requires Shaped(aps, ws) && n <= |aps| && lo > 0.0 && AtLeast(ws, lo)
    requires exists a :: 0 <= a < n && InPatch(aps[a], y, x)
    ensures Coverage(aps, ws, n, y, x) >= lo
  {
    var ap := aps[n - 1];
    if InPatch(ap, y, x) {
      assert ws[n - 1][y - ap.patchYLow][x - ap.patchXLow] >= lo;
      CoverageSign(aps, ws, n - 1, lo, y, x);
    } else {
      var a :| 0 <= a < n && InPatch(aps[a], y, x);
      assert a < n - 1;
      CoverageAtLeast(aps, ws, n - 1, lo, y, x);
    }
  }
}
