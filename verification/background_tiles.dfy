/**
  The square background patches. When only a small fraction of the image
  needs the background, the (undrizzled) image is cut into squares of a
  fixed size, row by row, and a square is kept when its drizzled region
  holds at least one pixel whose accumulated weight is below the blend
  threshold. The upper bound of a square is min(low + size, dim - 1), so
  the last image row and column never belong to a square.
*/
module BackgroundTiles {
  import opened Grids

  /** A background patch [yLow, yHigh) x [xLow, xHigh) in undrizzled pixels. */
  datatype BackgroundPatch = BackgroundPatch(yLow: nat, yHigh: nat, xLow: nat, xHigh: nat)

  lemma MulMonotone(a: nat, b: nat, d: nat)
    requires a <= b
    ensures a * d <= b * d
  {
  }

  /** The upper bound of the square starting at low: min(low + size, dim - 1). */
  function TileHigh(low: nat, size: nat, dim: nat): (high: nat)
    requires low < dim
    ensures low <= high <= dim - 1
    ensures high == if low + size < dim - 1 then low + size else dim - 1
  {
    if low + size < dim - 1 then low + size else dim - 1
  }

  /** The drizzled region of a patch lies inside the weight buffer a. */
  predicate InBuffer(a: array2<real>, p: BackgroundPatch, d: nat)
  {
    p.yLow <= p.yHigh && p.xLow <= p.xHigh && p.yHigh * d <= a.Length0 && p.xHigh * d <= a.Length1
  }

  /** The background is needed somewhere in the patch's drizzled region:
      some weight there is below the threshold t. */
  predicate NeedsBackground(a: array2<real>, p: BackgroundPatch, d: nat, t: real)
    reads a
  {
    InBuffer(a, p, d) &&
    (MulMonotone(p.yLow, p.yHigh, d);
     MulMonotone(p.xLow, p.xHigh, d);
     CountBelow(a, p.yLow * d, p.yHigh * d, p.xLow * d, p.xHigh * d, t) > 0)
  }

  /** The weight buffer a is the drizzled image of dimY x dimX pixels. */
  predicate Fits(a: array2<real>, dimY: nat, dimX: nat, d: nat)
  {
    a.Length0 == dimY * d && a.Length1 == dimX * d
  }

  /** The kept squares of the row of squares [yLow, yHigh), from column xLow on. */
  function RowTiles(a: array2<real>, yLow: nat, yHigh: nat, xLow: nat, dimY: nat, dimX: nat, size: nat, d: nat, t: real)
    : seq<BackgroundPatch>
    requires size > 0 && yLow <= yHigh <= dimY
    reads a
    decreases dimX - xLow
  {
    if xLow >= dimX then []
    else
      var xHigh := TileHigh(xLow, size, dimX);
      var p := BackgroundPatch(yLow, yHigh, xLow, xHigh);
      (if xLow != xHigh && NeedsBackground(a, p, d, t) then [p] else [])
        + RowTiles(a, yLow, yHigh, NextSquare(xLow, size), dimY, dimX, size, d, t)
  }

  /** The kept squares of all rows of squares from row yLow on. */
  function Tiles(a: array2<real>, yLow: nat, dimY: nat, dimX: nat, size: nat, d: nat, t: real): seq<BackgroundPatch>
    requires size > 0
    reads a
    decreases dimY - yLow
  {
    if yLow >= dimY then []
    else
      var yHigh := TileHigh(yLow, size, dimY);
      (if yLow != yHigh then RowTiles(a, yLow, yHigh, 0, dimY, dimX, size, d, t) else [])
        + Tiles(a, NextSquare(yLow, size), dimY, dimX, size, d, t)
  }

  /** The start of the next square along an axis: range(0, dim, size)
      steps from low to low + size. */
  function NextSquare(low: nat, size: nat): nat
  {
    low + size
  }

  /** x is one of 0, size, 2 * size, ...: a start of range(0, dim, size). */
  predicate OnGrid(x: nat, size: nat)
    requires size > 0
    decreases x
  {
    x == 0 || (x >= size && OnGrid(x - size, size))
  }

  /** A square as the tiling forms it: starting on a multiple of size,
      ending at min(low + size, dim - 1), and not empty. */
  predicate IsTile(p: BackgroundPatch, dimY: nat, dimX: nat, size: nat)
    requires size > 0
  {
    p.yLow < dimY && p.xLow < dimX &&
    OnGrid(p.yLow, size) && OnGrid(p.xLow, size) &&
    p.yHigh == TileHigh(p.yLow, size, dimY) && p.xHigh == TileHigh(p.xLow, size, dimX) &&
    p.yLow < p.yHigh && p.xLow < p.xHigh
  }

  lemma {:induction false} MultipleGap(x: nat, y: nat, size: nat)
    requires size > 0 && OnGrid(x, size) && OnGrid(y, size) && x < y
    ensures x + size <= y
    decreases x
  {
    if x != 0 {
      MultipleGap(x - size, y - size, size);
    }
  }

  lemma RegionInBuffer(a: array2<real>, p: BackgroundPatch, dimY: nat, dimX: nat, d: nat)
    requires Fits(a, dimY, dimX, d)
    requires p.yLow <= p.yHigh <= dimY && p.xLow <= p.xHigh <= dimX
    ensures InBuffer(a, p, d)
  {
    MulMonotone(p.yHigh, dimY, d);
    MulMonotone(p.xHigh, dimX, d);
  }

  lemma {:induction false} RowTilesSound(a: array2<real>, yLow: nat, yHigh: nat, xLow: nat, dimY: nat, dimX: nat, size: nat, d: nat, t: real)
    requires size > 0 && yLow < yHigh <= dimY
    requires yLow < dimY && OnGrid(yLow, size) && yHigh == TileHigh(yLow, size, dimY)
    requires OnGrid(xLow, size)
    ensures forall p :: p in RowTiles(a, yLow, yHigh, xLow, dimY, dimX, size, d, t) ==>
      IsTile(p, dimY, dimX, size) && p.yLow == yLow && p.xLow >= xLow && NeedsBackground(a, p, d, t)
    decreases dimX - xLow
  {
    if xLow < dimX {
      var xHigh := TileHigh(xLow, size, dimX);
      var q := BackgroundPatch(yLow, yHigh, xLow, xHigh);
      var here := if xLow != xHigh && NeedsBackground(a, q, d, t) then [q] else [];
      var rest := RowTiles(a, yLow, yHigh, NextSquare(xLow, size), dimY, dimX, size, d, t);
      assert RowTiles(a, yLow, yHigh, xLow, dimY, dimX, size, d, t) == here + rest;
      RowTilesSound(a, yLow, yHigh, NextSquare(xLow, size), dimY, dimX, size, d, t);
    }
  }

  /** Every listed patch is a non-empty square of the tiling, lies inside
      the image without its last row and column, and holds a pixel below
      the threshold. */
  lemma {:induction false} TilesSound(a: array2<real>, yLow: nat, dimY: nat, dimX: nat, size: nat, d: nat, t: real)
    requires size > 0 && OnGrid(yLow, size)
    ensures forall p :: p in Tiles(a, yLow, dimY, dimX, size, d, t) ==>
      IsTile(p, dimY, dimX, size) && p.yLow >= yLow && p.yHigh <= dimY - 1 && p.xHigh <= dimX - 1 &&
      NeedsBackground(a, p, d, t)
    decreases dimY - yLow
  {
    if yLow < dimY {
      var yHigh := TileHigh(yLow, size, dimY);
      var here := if yLow != yHigh then RowTiles(a, yLow, yHigh, 0, dimY, dimX, size, d, t) else [];
      var rest := Tiles(a, NextSquare(yLow, size), dimY, dimX, size, d, t);
      if yLow != yHigh {
        RowTilesSound(a, yLow, yHigh, 0, dimY, dimX, size, d, t);
      }
      TilesSound(a, NextSquare(yLow, size), dimY, dimX, size, d, t);
      forall p | p in Tiles(a, yLow, dimY, dimX, size, d, t)
        ensures IsTile(p, dimY, dimX, size) && p.yLow >= yLow && p.yHigh <= dimY - 1 && p.xHigh <= dimX - 1 &&
          NeedsBackground(a, p, d, t)
      {
        assert p in here || p in rest;
      }
    }
  }

  lemma {:induction false} RowTilesComplete(a: array2<real>, yLow: nat, yHigh: nat, xLow: nat, dimY: nat, dimX: nat, size: nat, d: nat, t: real,
                                            p: BackgroundPatch)
    requires size > 0 && yLow < yHigh <= dimY
    requires OnGrid(xLow, size)
    requires IsTile(p, dimY, dimX, size) && p.yLow == yLow && p.yHigh == yHigh && p.xLow >= xLow
    requires NeedsBackground(a, p, d, t)
    ensures p in RowTiles(a, yLow, yHigh, xLow, dimY, dimX, size, d, t)
    decreases dimX - xLow
  {
    var xHigh := TileHigh(xLow, size, dimX);
    var q := BackgroundPatch(yLow, yHigh, xLow, xHigh);
    var here := if xLow != xHigh && NeedsBackground(a, q, d, t) then [q] else [];
    var rest := RowTiles(a, yLow, yHigh, NextSquare(xLow, size), dimY, dimX, size, d, t);
    assert RowTiles(a, yLow, yHigh, xLow, dimY, dimX, size, d, t) == here + rest;
    if p.xLow == xLow {
      assert p == q && p in here;
    } else {
      MultipleGap(xLow, p.xLow, size);
      RowTilesComplete(a, yLow, yHigh, NextSquare(xLow, size), dimY, dimX, size, d, t, p);
    }
  }

  /** Conversely, every non-empty square of the tiling whose region holds
      a pixel below the threshold is listed. */
  lemma {:induction false} TilesComplete(a: array2<real>, yLow: nat, dimY: nat, dimX: nat, size: nat, d: nat, t: real, p: BackgroundPatch)
    requires size > 0 && OnGrid(yLow, size)
    requires IsTile(p, dimY, dimX, size) && p.yLow >= yLow
    requires NeedsBackground(a, p, d, t)
    ensures p in Tiles(a, yLow, dimY, dimX, size, d, t)
  {
    RowTilesComplete(a, p.yLow, p.yHigh, 0, dimY, dimX, size, d, t, p);
    RowInTiles(a, p.yLow, dimY, dimX, size, d, t, p);
    TilesSuffix(a, yLow, p.yLow, dimY, dimX, size, d, t, p);
  }

  /** A square listed from row r of squares on is listed from any earlier
      row of squares yLow on. */
  lemma {:induction false} TilesSuffix(a: array2<real>, yLow: nat, r: nat, dimY: nat, dimX: nat, size: nat, d: nat, t: real, p: BackgroundPatch)
    requires size > 0 && OnGrid(yLow, size) && OnGrid(r, size) && yLow <= r < dimY
    requires p in Tiles(a, r, dimY, dimX, size, d, t)
    ensures p in Tiles(a, yLow, dimY, dimX, size, d, t)
    decreases r - yLow
  {
    if yLow < r {
      MultipleGap(yLow, r, size);
      TilesSuffix(a, NextSquare(yLow, size), r, dimY, dimX, size, d, t, p);
      LaterRowsInTiles(a, yLow, dimY, dimX, size, d, t, p);
    }
  }

  lemma RowInTiles(a: array2<real>, yLow: nat, dimY: nat, dimX: nat, size: nat, d: nat, t: real, p: BackgroundPatch)
    requires size > 0 && yLow < dimY && yLow != TileHigh(yLow, size, dimY)
    requires p in RowTiles(a, yLow, TileHigh(yLow, size, dimY), 0, dimY, dimX, size, d, t)
    ensures p in Tiles(a, yLow, dimY, dimX, size, d, t)
  {
  }

  lemma LaterRowsInTiles(a: array2<real>, yLow: nat, dimY: nat, dimX: nat, size: nat, d: nat, t: real, p: BackgroundPatch)
    requires size > 0 && yLow < dimY
    requires p in Tiles(a, NextSquare(yLow, size), dimY, dimX, size, d, t)
    ensures p in Tiles(a, yLow, dimY, dimX, size, d, t)
  {
  }

  lemma ConcatAssociative<T>(x: seq<T>, y: seq<T>, z: seq<T>)
    ensures (x + y) + z == x + (y + z)
  {
  }

  /** The tiling loop of the background preparation: rows of squares
      from the top, each row listed by ListRowPatches. */
  method ListBackgroundPatches(a: array2<real>, dimY: nat, dimX: nat, size: nat, d: nat, t: real)
    returns (patches: seq<BackgroundPatch>)
    requires size > 0 && Fits(a, dimY, dimX, d)
    ensures patches == Tiles(a, 0, dimY, dimX, size, d, t)
  {
    patches := [];
    var yLow := 0;
    while yLow < dimY
      invariant patches + Tiles(a, yLow, dimY, dimX, size, d, t) == Tiles(a, 0, dimY, dimX, size, d, t)
      decreases dimY - yLow
    {
      var yHigh := TileHigh(yLow, size, dimY);
      ghost var rest := Tiles(a, NextSquare(yLow, size), dimY, dimX, size, d, t);
      var row := [];
      if yLow != yHigh {
        row := ListRowPatches(a, yLow, yHigh, dimY, dimX, size, d, t);
      }
      assert Tiles(a, yLow, dimY, dimX, size, d, t) == row + rest;
      ConcatAssociative(patches, row, rest);
      patches := patches + row;
      yLow := NextSquare(yLow, size);
    }
  }

  /** One row of squares [yLow, yHigh), from the left: a square is kept
      when count_nonzero(weights[drizzled region] < t) > 0. */
  method ListRowPatches(a: array2<real>, yLow: nat, yHigh: nat, dimY: nat, dimX: nat, size: nat, d: nat, t: real)
    returns (row: seq<BackgroundPatch>)
    requires size > 0 && Fits(a, dimY, dimX, d) && yLow <= yHigh <= dimY
    ensures row == RowTiles(a, yLow, yHigh, 0, dimY, dimX, size, d, t)
  {
    row := [];
    var xLow := 0;
    while xLow < dimX
      invariant row + RowTiles(a, yLow, yHigh, xLow, dimY, dimX, size, d, t) == RowTiles(a, yLow, yHigh, 0, dimY, dimX, size, d, t)
      decreases dimX - xLow
    {
      var xHigh := TileHigh(xLow, size, dimX);
      var p := BackgroundPatch(yLow, yHigh, xLow, xHigh);
      ghost var tail := RowTiles(a, yLow, yHigh, NextSquare(xLow, size), dimY, dimX, size, d, t);
      var kept := [];
      if xLow != xHigh {
        RegionInBuffer(a, p, dimY, dimX, d);
        var needed := PatchNeedsBackground(a, p, d, t);
        if needed {
          kept := [p];
        }
      }
      assert RowTiles(a, yLow, yHigh, xLow, dimY, dimX, size, d, t) == kept + tail;
      ConcatAssociative(row, kept, tail);
      row := row + kept;
      xLow := NextSquare(xLow, size);
    }
  }

  /** count_nonzero(weights[drizzled region of p] < t) > 0. */
  method PatchNeedsBackground(a: array2<real>, p: BackgroundPatch, d: nat, t: real) returns (needed: bool)
    requires InBuffer(a, p, d)
    ensures needed == NeedsBackground(a, p, d, t)
  {
    MulMonotone(p.yLow, p.yHigh, d);
    MulMonotone(p.xLow, p.xHigh, d);
    var count := CountCellsBelow(a, p.yLow * d, p.yHigh * d, p.xLow * d, p.xHigh * d, t);
    needed := count > 0;
  }
}
