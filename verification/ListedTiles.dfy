/** What a tile's list and a frame's budget mean on the vertices (gpu_compute/qd3d.rs): which frame
    pixels a primitive may touch, which tiles hold one of them, and how many pixels those tiles have. */
module ListedTiles {
  import opened Base
  import opened TileBinning

  // ---------- Touched pixels and tiles ----------

  /** Some corner is less than one pixel after the position on its axis, and some less than one before:
      `floor(min) <= x <= ceil(max)`. */
  predicate Near(u: real, v: real, w: real, at: int) {
    && (u < at as real + 1.0 || v < at as real + 1.0 || w < at as real + 1.0)
    && (at as real - 1.0 < u || at as real - 1.0 < v || at as real - 1.0 < w)
  }

  predicate Touches(p: Primitive, x: int, y: int) {
    Near(p.a.x, p.b.x, p.c.x, x) && Near(p.a.y, p.b.y, p.c.y, y)
  }

  /** A frame pixel of tile (tx, ty). */
  predicate InTile(x: nat, y: nat, width: nat, height: nat, tx: nat, ty: nat) {
    x < width && y < height && x / TILE_SIZE == tx && y / TILE_SIZE == ty
  }

  ghost predicate TouchesTile(p: Primitive, width: nat, height: nat, tx: nat, ty: nat) {
    exists x: nat, y: nat :: InTile(x, y, width, height, tx, ty) && Touches(p, x, y)
  }

  lemma BetweenIsNear(u: real, v: real, w: real, at: nat, limit: nat)
    requires at < limit
    ensures Low(u, v, w, limit) <= at < High(u, v, w, limit) <==> Near(u, v, w, at)
  {
  }

  lemma BoundsAreExact(p: Primitive, width: nat, height: nat, x: nat, y: nat)
    requires x < width && y < height
    ensures PrimitiveBounds(p, width, height).Contains(x, y) <==> Touches(p, x, y)
  {
    BetweenIsNear(p.a.x, p.b.x, p.c.x, x, width);
    BetweenIsNear(p.a.y, p.b.y, p.c.y, y, height);
  }

  /** A tile is met exactly when it holds a frame pixel the primitive touches. */
  lemma MetIsTouched(p: Primitive, width: nat, height: nat, tx: nat, ty: nat)
    ensures Meets(PrimitiveBounds(p, width, height), tx, ty) <==> TouchesTile(p, width, height, tx, ty)
  {
    var b := PrimitiveBounds(p, width, height);
    if Meets(b, tx, ty) {
      var x, y := Max(b.left, tx * TILE_SIZE), Max(b.top, ty * TILE_SIZE);
      BoundsAreExact(p, width, height, x, y);
      assert InTile(x, y, width, height, tx, ty);
    }
    if TouchesTile(p, width, height, tx, ty) {
      var x: nat, y: nat :| InTile(x, y, width, height, tx, ty) && Touches(p, x, y);
      BoundsAreExact(p, width, height, x, y);
    }
  }

  /** In drawing order, once each, the primitives that touch a frame pixel of the tile. */
  ghost predicate ListsTouched(list: seq<nat>, primitives: seq<Primitive>, width: nat, height: nat, tx: nat, ty: nat) {
    && (forall j, k :: 0 <= j < k < |list| ==> list[j] < list[k])
    && (forall i :: i in list <==> 0 <= i < |primitives| && TouchesTile(primitives[i], width, height, tx, ty))
  }

  lemma TileListTouches(primitives: seq<Primitive>, width: nat, height: nat, tx: nat, ty: nat)
    ensures ListsTouched(TileList(AllBounds(Measure(width, height), primitives), |primitives|, tx, ty), primitives,
                         width, height, tx, ty)
  {
    var bounds := AllBounds(Measure(width, height), primitives);
    TileListIsExact(bounds, |primitives|, tx, ty);
    forall i | 0 <= i < |primitives|
      ensures Meets(bounds[i], tx, ty) <==> TouchesTile(primitives[i], width, height, tx, ty)
    {
      MetIsTouched(primitives[i], width, height, tx, ty);
    }
  }

  // ---------- Counting ----------

  /** How many positions of an `across` by `down` grid satisfy `holds`. */
  function CountRow(holds: (nat, nat) -> bool, across: nat, y: nat): nat {
    if across == 0 then 0 else CountRow(holds, across - 1, y) + if HoldsAt(holds, across - 1, y) then 1 else 0
  }

  function Count(holds: (nat, nat) -> bool, across: nat, down: nat): nat {
    if down == 0 then 0 else Count(holds, across, down - 1) + CountRow(holds, across, down - 1)
  }

  function HoldsAt(holds: (nat, nat) -> bool, x: nat, y: nat): bool { holds(x, y) }

  ghost predicate IsBox(holds: (nat, nat) -> bool, left: nat, right: nat, top: nat, bottom: nat) {
    forall x: nat, y: nat :: HoldsAt(holds, x, y) <==> left <= x < right && top <= y < bottom
  }

  /** Positions below `n` from `a` up to `b`. */
  function Stretch(n: nat, a: nat, b: nat): nat { Max(0, Min(n, b) - a) }

  lemma {:induction false} CountRowOfBox(holds: (nat, nat) -> bool, across: nat, y: nat, left: nat, right: nat,
                                         top: nat, bottom: nat)
    requires IsBox(holds, left, right, top, bottom)
    ensures CountRow(holds, across, y) == if top <= y < bottom then Stretch(across, left, right) else 0
  {
    if across > 0 {
      CountRowOfBox(holds, across - 1, y, left, right, top, bottom);
    }
  }

  lemma {:induction false} CountOfBox(holds: (nat, nat) -> bool, across: nat, down: nat, left: nat, right: nat,
                                      top: nat, bottom: nat)
    requires IsBox(holds, left, right, top, bottom)
    ensures Count(holds, across, down) == TilesIn(Stretch(across, left, right), Stretch(down, top, bottom))
  {
    if down > 0 {
      CountOfBox(holds, across, down - 1, left, right, top, bottom);
      CountRowOfBox(holds, across, down - 1, left, right, top, bottom);
    }
  }

  // ---------- The budget of one primitive ----------

  ghost function Touched(p: Primitive, width: nat, height: nat): (nat, nat) -> bool {
    (tx: nat, ty: nat) => TouchesTile(p, width, height, tx, ty)
  }

  /** Whether a pixel's tile is touched. */
  ghost function Listed(p: Primitive, width: nat, height: nat): (nat, nat) -> bool {
    (x: nat, y: nat) => TouchesTile(p, width, height, x / TILE_SIZE, y / TILE_SIZE)
  }

  /** The tiles that list the primitive. */
  ghost function ListedTiles(p: Primitive, width: nat, height: nat): nat {
    Count(Touched(p, width, height), CeilDiv(width, TILE_SIZE), CeilDiv(height, TILE_SIZE))
  }

  /** The frame pixels of those tiles. */
  ghost function ListedPixels(p: Primitive, width: nat, height: nat): nat {
    Count(Listed(p, width, height), width, height)
  }

  lemma EntriesAreTiles(p: Primitive, width: nat, height: nat)
    ensures PrimitiveEntries(PrimitiveBounds(p, width, height)) == ListedTiles(p, width, height)
  {
    var b, holds := PrimitiveBounds(p, width, height), Touched(p, width, height);
    var left, right, top, bottom := FirstX(b), EndX(b), FirstY(b), EndY(b);
    if b.Empty() {
      right, bottom := left, top;
    }
    forall tx: nat, ty: nat
      ensures HoldsAt(holds, tx, ty) <==> left <= tx < right && top <= ty < bottom
    {
      MetIsTouched(p, width, height, tx, ty);
      VisitedIsMet(b, tx, ty);
    }
    CountOfBox(holds, CeilDiv(width, TILE_SIZE), CeilDiv(height, TILE_SIZE), left, right, top, bottom);
  }

  /** Pixels below `limit` in the tiles from `a` up to `b`. */
  function PixelsOf(limit: nat, a: nat, b: nat): nat { Stretch(limit, a * TILE_SIZE, b * TILE_SIZE) }

  lemma {:induction false} RowWorkIsPixels(width: nat, height: nat, lighting: nat, ty: nat, a: nat, b: nat, down: nat)
    requires a <= b && down == PixelsOf(height, ty, ty + 1)
    ensures RowWork(TileCost(width, height, lighting), ty, a, b) == PixelsOf(width, a, b) * down * lighting
    decreases b
  {
    if a < b {
      RowWorkIsPixels(width, height, lighting, ty, a, b - 1, down);
      var across := PixelsOf(width, b - 1, b);
      assert CostAt(TileCost(width, height, lighting), b - 1, ty) == across * down * lighting;
      assert PixelsOf(width, a, b) == PixelsOf(width, a, b - 1) + across;
      AddProducts(PixelsOf(width, a, b - 1), across, down, lighting);
    }
  }

  lemma AddProducts(a: nat, b: nat, down: nat, lighting: nat)
    ensures a * down * lighting + b * down * lighting == (a + b) * down * lighting
  {
    var u, v := a * down, b * down;
    assert (a + b) * down == u + v;
    assert u * lighting + v * lighting == (u + v) * lighting;
  }

  lemma {:induction false} BlockWorkIsPixels(width: nat, height: nat, lighting: nat, x0: nat, x1: nat, a: nat, b: nat,
                                             across: nat)
    requires x0 <= x1 && a <= b && across == PixelsOf(width, x0, x1)
    ensures BlockWork(TileCost(width, height, lighting), x0, x1, a, b) == PixelsOf(height, a, b) * across * lighting
    decreases b
  {
    if a < b {
      BlockWorkIsPixels(width, height, lighting, x0, x1, a, b - 1, across);
      var down := PixelsOf(height, b - 1, b);
      RowWorkIsPixels(width, height, lighting, b - 1, x0, x1, down);
      assert PixelsOf(height, a, b) == PixelsOf(height, a, b - 1) + down;
      assert across * down == down * across;
      AddProducts(PixelsOf(height, a, b - 1), down, across, lighting);
    }
  }

  /** The visited tiles as a box, an empty one for empty bounds. */
  ghost predicate IsVisited(b: Bounds, x0: nat, x1: nat, y0: nat, y1: nat) {
    x0 <= x1 && y0 <= y1 && forall tx: nat, ty: nat :: Meets(b, tx, ty) <==> x0 <= tx < x1 && y0 <= ty < y1
  }

  lemma ListedPixelsOf(p: Primitive, width: nat, height: nat, x0: nat, x1: nat, y0: nat, y1: nat)
    requires IsVisited(PrimitiveBounds(p, width, height), x0, x1, y0, y1)
    ensures ListedPixels(p, width, height) == PixelsOf(width, x0, x1) * PixelsOf(height, y0, y1)
  {
    forall x: nat, y: nat
      ensures HoldsAt(Listed(p, width, height), x, y) <==>
              x0 * TILE_SIZE <= x < x1 * TILE_SIZE && y0 * TILE_SIZE <= y < y1 * TILE_SIZE
    {
      MetIsTouched(p, width, height, x / TILE_SIZE, y / TILE_SIZE);
    }
    CountOfBox(Listed(p, width, height), width, height, x0 * TILE_SIZE, x1 * TILE_SIZE, y0 * TILE_SIZE, y1 * TILE_SIZE);
    TilesInIsProduct(PixelsOf(width, x0, x1), PixelsOf(height, y0, y1));
  }

  lemma VisitedBox(b: Bounds)
    ensures if b.Empty() then IsVisited(b, 0, 0, 0, 0) else IsVisited(b, FirstX(b), EndX(b), FirstY(b), EndY(b))
  {
    forall tx: nat, ty: nat
      ensures Meets(b, tx, ty) <==> !b.Empty() && FirstX(b) <= tx < EndX(b) && FirstY(b) <= ty < EndY(b)
    {
      VisitedIsMet(b, tx, ty);
    }
  }

  lemma WorkIsPixels(p: Primitive, width: nat, height: nat)
    ensures ExtentOf(Measure(width, height), p).Work() == ListedPixels(p, width, height) * (1 + p.lights)
  {
    var b := PrimitiveBounds(p, width, height);
    VisitedBox(b);
    if b.Empty() {
      ListedPixelsOf(p, width, height, 0, 0, 0, 0);
    } else {
      var across, down := PixelsOf(width, FirstX(b), EndX(b)), PixelsOf(height, FirstY(b), EndY(b));
      ListedPixelsOf(p, width, height, FirstX(b), EndX(b), FirstY(b), EndY(b));
      BlockWorkIsPixels(width, height, 1 + p.lights, FirstX(b), EndX(b), FirstY(b), EndY(b), across);
      assert down * across == across * down;
    }
  }

  // ---------- The budget of a frame ----------

  ghost function TotalTiles(primitives: seq<Primitive>, width: nat, height: nat): nat {
    if primitives == [] then 0
    else
      var last := |primitives| - 1;
      TotalTiles(primitives[..last], width, height) + ListedTiles(primitives[last], width, height)
  }

  ghost function TotalWork(primitives: seq<Primitive>, width: nat, height: nat): nat {
    if primitives == [] then 0
    else
      var last := |primitives| - 1;
      TotalWork(primitives[..last], width, height)
        + ListedPixels(primitives[last], width, height) * (1 + primitives[last].lights)
  }

  /** Storage holds two words for each tile of the frame and one for each entry of a list. The work is every
      frame pixel of every listed tile, once and once more for each light. */
  ghost predicate Affordable(primitives: seq<Primitive>, width: nat, height: nat, limit: nat) {
    && (CeilDiv(width, TILE_SIZE) * CeilDiv(height, TILE_SIZE) * 2 + TotalTiles(primitives, width, height)) * 4 <= limit
    && TotalWork(primitives, width, height) <= MAX_RASTER_WORK
  }

  lemma {:induction false} SumsAreTotals(primitives: seq<Primitive>, width: nat, height: nat, n: nat)
    requires n <= |primitives|
    ensures Sum(AllEntries(AllBounds(Measure(width, height), primitives)), n)
         == TotalTiles(primitives[..n], width, height)
    ensures Sum(AllWork(Measure(width, height), primitives), n) == TotalWork(primitives[..n], width, height)
  {
    if n > 0 {
      SumsAreTotals(primitives, width, height, n - 1);
      assert primitives[..n][..n - 1] == primitives[..n - 1];
      EntriesAreTiles(primitives[n - 1], width, height);
      WorkIsPixels(primitives[n - 1], width, height);
    }
  }

  lemma FitsIsAffordable(primitives: seq<Primitive>, width: nat, height: nat, limit: nat)
    ensures FitsDevice(primitives, width, height, limit) <==> Affordable(primitives, width, height, limit)
  {
    SumsAreTotals(primitives, width, height, |primitives|);
    assert primitives[..|primitives|] == primitives;
  }
}
