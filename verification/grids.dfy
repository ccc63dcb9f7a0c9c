/**
  Two-dimensional image buffers: the whole-array and slice operations the
  stacking code performs on them (counting cells below a threshold,
  adding a block into a rectangle, dividing cell by cell, blending and
  cutting out a rectangle). A block of values is a sequence of rows.
*/
module Grids {

  /** m is a rectangle of h rows of w values. */
  predicate IsBlock(m: seq<seq<real>>, h: nat, w: nat)
  {
    |m| == h && forall i :: 0 <= i < h ==> |m[i]| == w
  }

  /** The cells of a[y0..y1, x0..x1] as a block. */
  function Block(a: array2<real>, y0: nat, y1: nat, x0: nat, x1: nat): (m: seq<seq<real>>)
    requires y0 <= y1 <= a.Length0 && x0 <= x1 <= a.Length1
    reads a
    ensures IsBlock(m, y1 - y0, x1 - x0)
    ensures forall i, j :: 0 <= i < y1 - y0 && 0 <= j < x1 - x0 ==> m[i][j] == a[y0 + i, x0 + j]
  {
    seq(y1 - y0, i requires 0 <= i < y1 - y0 reads a =>
      seq(x1 - x0, j requires 0 <= j < x1 - x0 reads a => a[y0 + i, x0 + j]))
  }

  /** The block's value at buffer cell (y, x) when the block is placed with
      its first cell at (y0, x0), and 0 outside it. */
  function Placed(m: seq<seq<real>>, h: nat, w: nat, y0: nat, x0: nat, y: int, x: int): real
    requires IsBlock(m, h, w)
  {
    if y0 <= y < y0 + h && x0 <= x < x0 + w then m[y - y0][x - x0] else 0.0
  }

  /** Cells of row y, columns x0..x1-1, below t. */
  function CountBelowInRow(a: array2<real>, y: nat, x0: nat, x1: nat, t: real): nat
    requires y < a.Length0 && x0 <= x1 <= a.Length1
    reads a
    decreases x1 - x0
  {
    if x1 == x0 then 0 else CountBelowInRow(a, y, x0, x1 - 1, t) + (if a[y, x1 - 1] < t then 1 else 0)
  }

  /** Cells of a[y0..y1, x0..x1] below t: count_nonzero(a[y0:y1, x0:x1] < t). */
  function CountBelow(a: array2<real>, y0: nat, y1: nat, x0: nat, x1: nat, t: real): nat
    requires y0 <= y1 <= a.Length0 && x0 <= x1 <= a.Length1
    reads a
    decreases y1 - y0
  {
    if y1 == y0 then 0 else CountBelow(a, y0, y1 - 1, x0, x1, t) + CountBelowInRow(a, y1 - 1, x0, x1, t)
  }

  lemma {:induction false} CountBelowInRowZero(a: array2<real>, y: nat, x0: nat, x1: nat, t: real)
    requires y < a.Length0 && x0 <= x1 <= a.Length1
    ensures CountBelowInRow(a, y, x0, x1, t) == 0 <==> forall x :: x0 <= x < x1 ==> a[y, x] >= t
    decreases x1 - x0
  {
    if x1 > x0 {
      CountBelowInRowZero(a, y, x0, x1 - 1, t);
    }
  }

  /** No cell of the rectangle is below t exactly when the count is 0. */
  lemma {:induction false} CountBelowZero(a: array2<real>, y0: nat, y1: nat, x0: nat, x1: nat, t: real)
    requires y0 <= y1 <= a.Length0 && x0 <= x1 <= a.Length1
    ensures CountBelow(a, y0, y1, x0, x1, t) == 0 <==> forall y, x :: y0 <= y < y1 && x0 <= x < x1 ==> a[y, x] >= t
    decreases y1 - y0
  {
    if y1 > y0 {
      CountBelowZero(a, y0, y1 - 1, x0, x1, t);
      CountBelowInRowZero(a, y1 - 1, x0, x1, t);
    }
  }

  /** The count never exceeds the number of cells. */
  lemma {:induction false} CountBelowAtMostArea(a: array2<real>, y0: nat, y1: nat, x0: nat, x1: nat, t: real)
    requires y0 <= y1 <= a.Length0 && x0 <= x1 <= a.Length1
    ensures CountBelow(a, y0, y1, x0, x1, t) <= (y1 - y0) * (x1 - x0)
    decreases y1 - y0
  {
    if y1 > y0 {
      CountBelowAtMostArea(a, y0, y1 - 1, x0, x1, t);
      RowCountAtMostWidth(a, y1 - 1, x0, x1, t);
      assert (y1 - y0) * (x1 - x0) == (y1 - 1 - y0) * (x1 - x0) + (x1 - x0);
    }
  }

  lemma {:induction false} RowCountAtMostWidth(a: array2<real>, y: nat, x0: nat, x1: nat, t: real)
    requires y < a.Length0 && x0 <= x1 <= a.Length1
    ensures CountBelowInRow(a, y, x0, x1, t) <= x1 - x0
    decreases x1 - x0
  {
    if x1 > x0 {
      RowCountAtMostWidth(a, y, x0, x1 - 1, t);
    }
  }

  /** count_nonzero(a[y0:y1, x0:x1] < t), cell by cell. */
  method CountCellsBelow(a: array2<real>, y0: nat, y1: nat, x0: nat, x1: nat, t: real) returns (n: nat)
    requires y0 <= y1 <= a.Length0 && x0 <= x1 <= a.Length1
    ensures n == CountBelow(a, y0, y1, x0, x1, t)
  {
    n := 0;
    var y := y0;
    while y < y1
      invariant y0 <= y <= y1
      invariant n == CountBelow(a, y0, y, x0, x1, t)
    {
      var x := x0;
      var inRow := 0;
      while x < x1
        invariant x0 <= x <= x1
        invariant inRow == CountBelowInRow(a, y, x0, x, t)
      {
        if a[y, x] < t {
          inRow := inRow + 1;
        }
        x := x + 1;
      }
      n := n + inRow;
      y := y + 1;
    }
  }

  /** buf[y0:y0+h, x0:x0+w] += k * m, for an h x w block m. */
  method AddBlock(buf: array2<real>, y0: nat, x0: nat, m: seq<seq<real>>, h: nat, w: nat, k: real)
    requires IsBlock(m, h, w) && y0 + h <= buf.Length0 && x0 + w <= buf.Length1
    modifies buf
    ensures forall y, x :: 0 <= y < buf.Length0 && 0 <= x < buf.Length1 ==>
      buf[y, x] == old(buf[y, x]) + k * Placed(m, h, w, y0, x0, y, x)
  {
    var i := 0;
    while i < h
      invariant 0 <= i <= h
      invariant forall y, x :: 0 <= y < buf.Length0 && 0 <= x < buf.Length1 ==>
        buf[y, x] == old(buf[y, x]) + (if y < y0 + i then k * Placed(m, h, w, y0, x0, y, x) else 0.0)
    {
      var j := 0;
      while j < w
        invariant 0 <= j <= w
        invariant forall y, x :: 0 <= y < buf.Length0 && 0 <= x < buf.Length1 ==>
          buf[y, x] == old(buf[y, x]) +
            (if y < y0 + i || (y == y0 + i && x < x0 + j) then k * Placed(m, h, w, y0, x0, y, x) else 0.0)
      {
        buf[y0 + i, x0 + j] := buf[y0 + i, x0 + j] + k * m[i][j];
        j := j + 1;
      }
      i := i + 1;
    }
  }

  /** buf[yt:yt+h, xt:xt+w] += src[ys:ys+h, xs:xs+w]. */
  method AddRegion(buf: array2<real>, src: seq<seq<real>>, yt: nat, xt: nat, ys: nat, xs: nat, h: nat, w: nat)
    requires yt + h <= buf.Length0 && xt + w <= buf.Length1
    requires ys + h <= |src| && forall r :: ys <= r < ys + h ==> xs + w <= |src[r]|
    modifies buf
    ensures forall y, x :: 0 <= y < buf.Length0 && 0 <= x < buf.Length1 ==>
      buf[y, x] == old(buf[y, x]) + (if yt <= y < yt + h && xt <= x < xt + w then src[y - yt + ys][x - xt + xs] else 0.0)
  {
    var i := 0;
    while i < h
      invariant 0 <= i <= h
      invariant forall y, x :: 0 <= y < buf.Length0 && 0 <= x < buf.Length1 ==>
        buf[y, x] == old(buf[y, x]) +
          (if yt <= y < yt + i && xt <= x < xt + w then src[y - yt + ys][x - xt + xs] else 0.0)
    {
      var j := 0;
      while j < w
        invariant 0 <= j <= w
        invariant forall y, x :: 0 <= y < buf.Length0 && 0 <= x < buf.Length1 ==>
          buf[y, x] == old(buf[y, x]) +
            (if (yt <= y < yt + i && xt <= x < xt + w) || (y == yt + i && xt <= x < xt + j)
             then src[y - yt + ys][x - xt + xs] else 0.0)
      {
        buf[yt + i, xt + j] := buf[yt + i, xt + j] + src[ys + i][xs + j];
        j := j + 1;
      }
      i := i + 1;
    }
  }

  /** The cell-by-cell product src * m of an array and a block of its shape. */
  function ProductBlock(src: array2<real>, m: seq<seq<real>>): (p: seq<seq<real>>)
    requires IsBlock(m, src.Length0, src.Length1)
    reads src
    ensures IsBlock(p, src.Length0, src.Length1)
    ensures forall i, j :: 0 <= i < src.Length0 && 0 <= j < src.Length1 ==> p[i][j] == src[i, j] * m[i][j]
  {
    seq(src.Length0, i requires 0 <= i < src.Length0 reads src =>
      seq(src.Length1, j requires 0 <= j < src.Length1 reads src => src[i, j] * m[i][j]))
  }

  /** buf[y0:y0+h, x0:x0+w] += src * m for an h x w buffer src and an
      h x w block m: the product is formed first, then added. */
  method AddProduct(buf: array2<real>, src: array2<real>, m: seq<seq<real>>, y0: nat, x0: nat)
    requires buf != src && IsBlock(m, src.Length0, src.Length1)
    requires y0 + src.Length0 <= buf.Length0 && x0 + src.Length1 <= buf.Length1
    modifies buf
    ensures forall y, x :: 0 <= y < buf.Length0 && 0 <= x < buf.Length1 ==>
      buf[y, x] == old(buf[y, x]) +
        (if y0 <= y < y0 + src.Length0 && x0 <= x < x0 + src.Length1
         then src[y - y0, x - x0] * m[y - y0][x - x0] else 0.0)
  {
    var product := ProductBlock(src, m);
    AddRegion(buf, product, y0, x0, 0, 0, src.Length0, src.Length1);
  }

  /** a /= d, cell by cell. */
  method DivideCells(a: array2<real>, d: array2<real>)
    requires a != d && a.Length0 == d.Length0 && a.Length1 == d.Length1
    requires forall y, x :: 0 <= y < d.Length0 && 0 <= x < d.Length1 ==> d[y, x] != 0.0
    modifies a
    ensures forall y, x :: 0 <= y < a.Length0 && 0 <= x < a.Length1 ==> a[y, x] == old(a[y, x]) / d[y, x]
  {
    var y := 0;
    while y < a.Length0
      invariant 0 <= y <= a.Length0
      invariant forall r, x :: 0 <= r < a.Length0 && 0 <= x < a.Length1 ==>
        a[r, x] == if r < y then old(a[r, x]) / d[r, x] else old(a[r, x])
    {
      var x := 0;
      while x < a.Length1
        invariant 0 <= x <= a.Length1
        invariant forall r, c :: 0 <= r < a.Length0 && 0 <= c < a.Length1 ==>
          a[r, c] == if r < y || (r == y && c < x) then old(a[r, c]) / d[r, c] else old(a[r, c])
      {
        a[y, x] := a[y, x] / d[y, x];
        x := x + 1;
      }
      y := y + 1;
    }
  }

  /** clip(v, 0, 1). */
  function Clip01(v: real): (c: real)
    ensures 0.0 <= c <= 1.0
    ensures 0.0 <= v <= 1.0 ==> c == v
  {
    if v < 0.0 then 0.0 else if v > 1.0 then 1.0 else v
  }

  /** The blend of a foreground value with a background value under the
      foreground weight f: (value - background) * f + background. */
  function BlendValue(value: real, background: real, f: real): real
  {
    (value - background) * f + background
  }

  /** A weight of 0 shows the background, a weight of 1 the foreground, and
      a weight in between a value between the two. */
  lemma BlendEnds(value: real, background: real, f: real)
    requires 0.0 <= f <= 1.0
    ensures f == 0.0 ==> BlendValue(value, background, f) == background
    ensures f == 1.0 ==> BlendValue(value, background, f) == value
    ensures background <= value ==> background <= BlendValue(value, background, f) <= value
    ensures value <= background ==> value <= BlendValue(value, background, f) <= background
  {
    var b := BlendValue(value, background, f);
    assert b - background == (value - background) * f;
    assert value - b == (value - background) * (1.0 - f);
    if background <= value {
      NonNegativeProduct(value - background, f);
      NonNegativeProduct(value - background, 1.0 - f);
    } else {
      NonNegativeProduct(background - value, f);
      NonNegativeProduct(background - value, 1.0 - f);
    }
  }

  lemma NonNegativeProduct(a: real, b: real)
    requires 0.0 <= a && 0.0 <= b
    ensures 0.0 <= a * b
  {
  }

  /** The cell-by-cell blend of stacked over background under the weights
      clip(weights / scale, 0, 1), as a block. */
  function BlendBlock(stacked: array2<real>, background: array2<real>, weights: array2<real>, scale: real): (b: seq<seq<real>>)
    requires scale != 0.0
    requires stacked.Length0 == background.Length0 == weights.Length0
    requires stacked.Length1 == background.Length1 == weights.Length1
    reads stacked, background, weights
    ensures IsBlock(b, stacked.Length0, stacked.Length1)
    ensures forall y, x :: 0 <= y < stacked.Length0 && 0 <= x < stacked.Length1 ==>
      b[y][x] == BlendValue(stacked[y, x], background[y, x], Clip01(weights[y, x] / scale))
  {
    seq(stacked.Length0, y requires 0 <= y < stacked.Length0 reads stacked, background, weights =>
      seq(stacked.Length1, x requires 0 <= x < stacked.Length1 reads stacked, background, weights =>
        BlendValue(stacked[y, x], background[y, x], Clip01(weights[y, x] / scale))))
  }

  /** A fresh buffer holding, in each cell, the foreground blended with the
      background under weight clip(weights / scale, 0, 1). */
  method BlendWithBackground(stacked: array2<real>, background: array2<real>, weights: array2<real>, scale: real)
    returns (r: array2<real>)
    requires scale != 0.0
    requires stacked.Length0 == background.Length0 == weights.Length0
    requires stacked.Length1 == background.Length1 == weights.Length1
    ensures fresh(r) && r.Length0 == stacked.Length0 && r.Length1 == stacked.Length1
    ensures forall y, x :: 0 <= y < r.Length0 && 0 <= x < r.Length1 ==>
      r[y, x] == BlendValue(stacked[y, x], background[y, x], Clip01(weights[y, x] / scale))
  {
    ghost var target := BlendBlock(stacked, background, weights, scale);
    r := new real[stacked.Length0, stacked.Length1];
    var y := 0;
    while y < r.Length0
      invariant 0 <= y <= r.Length0
      invariant forall i, x :: 0 <= i < y && 0 <= x < r.Length1 ==> r[i, x] == target[i][x]
    {
      var x := 0;
      while x < r.Length1
        invariant 0 <= x <= r.Length1
        invariant forall i, c :: 0 <= i < r.Length0 && 0 <= c < r.Length1 && (i < y || (i == y && c < x)) ==>
          r[i, c] == target[i][c]
      {
        var foregroundWeight := Clip01(weights[y, x] / scale);
        r[y, x] := (stacked[y, x] - background[y, x]) * foregroundWeight + background[y, x];
        x := x + 1;
      }
      y := y + 1;
    }
  }

  /** The bounds a[start:stop] selects along an axis of length n, with
      Python's rules: a negative bound counts from the end, bounds are
      clipped to [0, n], and a stop before the start selects nothing. */
  function SliceBounds(start: int, stop: int, n: nat): (b: (nat, nat))
    ensures b.0 <= b.1 <= n
  {
    var lo := if start < 0 then (if start + n < 0 then 0 else start + n) else (if start > n then n else start);
    var hi := if stop < 0 then (if stop + n < 0 then 0 else stop + n) else (if stop > n then n else stop);
    (lo, if hi < lo then lo else hi)
  }

  /** Within range, a slice keeps exactly the requested cells. */
  lemma SliceBoundsInRange(start: nat, stop: nat, n: nat)
    requires start <= stop <= n
    ensures SliceBounds(start, stop, n) == (start, stop)
  {
  }

  /** A fresh copy of a[y0:y1, x0:x1]. */
  method CutOut(a: array2<real>, y0: nat, y1: nat, x0: nat, x1: nat) returns (r: array2<real>)
    requires y0 <= y1 <= a.Length0 && x0 <= x1 <= a.Length1
    ensures fresh(r) && r.Length0 == y1 - y0 && r.Length1 == x1 - x0
    ensures forall i, j :: 0 <= i < r.Length0 && 0 <= j < r.Length1 ==> r[i, j] == a[y0 + i, x0 + j]
  {
    r := new real[y1 - y0, x1 - x0];
    var i := 0;
    while i < r.Length0
      invariant 0 <= i <= r.Length0
      invariant forall k, j :: 0 <= k < i && 0 <= j < r.Length1 ==> r[k, j] == a[y0 + k, x0 + j]
    {
      var j := 0;
      while j < r.Length1
        invariant 0 <= j <= r.Length1
        invariant forall k, c :: 0 <= k < r.Length0 && 0 <= c < r.Length1 && (k < i || (k == i && c < j)) ==>
          r[k, c] == a[y0 + k, x0 + c]
      {
        r[i, j] := a[y0 + i, x0 + j];
        j := j + 1;
      }
      i := i + 1;
    }
  }
}
