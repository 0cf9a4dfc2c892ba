/** Per-tile primitive lists for the QD3D rasterizer (gpu_compute/qd3d.rs). A tile's list
    must paint each of its pixels exactly as the whole ordered primitive list would.
    Coordinates are reals; the shader's coverage tests are those of qd3d.wgsl. */
module TileBinning {
  import opened Base

  const TILE_SIZE: nat := 16
  const MAX_RASTER_WORK: nat := 512_000_000

  type u32 = x: nat | x < U32_LIMIT

  datatype Kind = Triangles | Lines | Points
  datatype Vertex = Vertex(x: real, y: real)
  datatype Primitive = Primitive(kind: Kind, a: Vertex, b: Vertex, c: Vertex, lights: u32)
  // ---------- Coverage, as the shader decides it ----------

  function Edge(a: Vertex, b: Vertex, p: Vertex): real {
    (p.x - a.x) * (b.y - a.y) - (p.y - a.y) * (b.x - a.x)
  }

  predicate TriangleCovers(p: Primitive, at: Vertex) {
    var area := Edge(p.a, p.b, p.c);
    var w0, w1, w2 := Edge(p.b, p.c, at), Edge(p.c, p.a, at), Edge(p.a, p.b, at);
    !((area > 0.0 && (w0 < 0.0 || w1 < 0.0 || w2 < 0.0)) || (area < 0.0 && (w0 > 0.0 || w1 > 0.0 || w2 > 0.0)))
  }

  function Abs(x: int): nat { if x < 0 then -x else x }

  /** How far the minor axis has advanced after `step` major steps, rounded, in 32 bits. */
  function Advance(step: nat, minor: nat, major: nat): nat
    requires major > 0
  {
    if step == major then minor else (step * minor + major / 2) % U32_LIMIT / major
  }

  function Towards(start: int, end: int, distance: int): int {
    if start < end then start + distance else start - distance
  }

  /** Closed-form Bresenham: the major-axis step fixes the one covered cell. */
  predicate LineCell(sx: int, sy: int, ex: int, ey: int, x: int, y: int) {
    var dx, dy := Abs(ex - sx), Abs(ey - sy);
    var major := Max(dx, dy);
    var step := if dx >= dy then (if sx < ex then x - sx else sx - x) else (if sy < ey then y - sy else sy - y);
    if step < 0 || step > major then false
    else if major == 0 then x == sx && y == sy
    else if dx >= dy then x == Towards(sx, ex, step) && y == Towards(sy, ey, Advance(step, dy, major))
    else x == Towards(sx, ex, Advance(step, dx, major)) && y == Towards(sy, ey, step)
  }

  predicate LineCovers(p: Primitive, x: int, y: int) {
    LineCell(p.a.x.Floor, p.a.y.Floor, p.b.x.Floor, p.b.y.Floor, x, y)
  }

  predicate Covers(p: Primitive, x: int, y: int) {
    match p.kind
    case Triangles => TriangleCovers(p, Vertex(x as real, y as real))
    case Points => x == p.a.x.Floor && y == p.a.y.Floor
    case Lines => LineCovers(p, x, y)
  }

  predicate Integral(v: Vertex) { v.x.Floor as real == v.x && v.y.Floor as real == v.y }

  predicate InRange(v: Vertex) { -32768.0 <= v.x <= 32768.0 && -32768.0 <= v.y <= 32768.0 }

  /** What the host checks before a packet is sent: bounded coordinates, no degenerate
      triangle (those become three lines), integral points and lines. */
  predicate Drawable(p: Primitive) {
    && InRange(p.a) && InRange(p.b) && InRange(p.c)
    && (p.kind.Triangles? ==> Edge(p.a, p.b, p.c) != 0.0)
    && (!p.kind.Triangles? ==> Integral(p.a) && Integral(p.b) && Integral(p.c))
  }

  // ---------- Clipped bounds ----------

  datatype Bounds = Bounds(left: nat, top: nat, right: nat, bottom: nat) {
    predicate Empty() { left >= right || top >= bottom }
    predicate Contains(x: int, y: int) { left <= x < right && top <= y < bottom }
  }

  function MinR(a: real, b: real): real { if a <= b then a else b }
  function MaxR(a: real, b: real): real { if a >= b then a else b }
  function Ceil(x: real): int { -((-x).Floor) }

  function Low(u: real, v: real, w: real, limit: nat): (r: nat) ensures r <= limit {
    Clamp(MinR(u, MinR(v, w)).Floor, 0, limit)
  }

  function High(u: real, v: real, w: real, limit: nat): (r: nat) ensures r <= limit {
    Clamp(Ceil(MaxR(u, MaxR(v, w))) + 1, 0, limit)
  }

  function PrimitiveBounds(p: Primitive, width: nat, height: nat): Bounds {
    Bounds(Low(p.a.x, p.b.x, p.c.x, width), Low(p.a.y, p.b.y, p.c.y, height),
           High(p.a.x, p.b.x, p.c.x, width), High(p.a.y, p.b.y, p.c.y, height))
  }

  lemma Product(a: real, b: real)
    ensures a >= 0.0 && b >= 0.0 ==> a * b >= 0.0
    ensures a > 0.0 && b > 0.0 ==> a * b > 0.0
  {
  }

  /** Nonnegative weights, not all zero, cannot balance terms that are all positive. */
  lemma Unbalanced(w0: real, w1: real, w2: real, u: real, v: real, w: real)
    requires w0 >= 0.0 && w1 >= 0.0 && w2 >= 0.0 && w0 + w1 + w2 > 0.0
    requires u > 0.0 && v > 0.0 && w > 0.0
    ensures w0 * u + w1 * v + w2 * w > 0.0
  {
    Product(w0, u);
    Product(w1, v);
    Product(w2, w);
  }

  /** Barycentric weights of a point balance the corners about it, in each axis. */
  lemma Barycentric(a: Vertex, b: Vertex, c: Vertex, p: Vertex)
    ensures var w0, w1, w2 := Edge(b, c, p), Edge(c, a, p), Edge(a, b, p);
            && w0 + w1 + w2 == Edge(a, b, c)
            && w0 * (a.x - p.x) + w1 * (b.x - p.x) + w2 * (c.x - p.x) == 0.0
            && w0 * (a.y - p.y) + w1 * (b.y - p.y) + w2 * (c.y - p.y) == 0.0
  {
  }

  /** A covered point is not strictly to one side of all three corners. */
  lemma TriangleWithinCorners(p: Primitive, at: Vertex)
    requires TriangleCovers(p, at) && Edge(p.a, p.b, p.c) != 0.0
    ensures MinR(p.a.x, MinR(p.b.x, p.c.x)) <= at.x <= MaxR(p.a.x, MaxR(p.b.x, p.c.x))
    ensures MinR(p.a.y, MinR(p.b.y, p.c.y)) <= at.y <= MaxR(p.a.y, MaxR(p.b.y, p.c.y))
  {
    Barycentric(p.a, p.b, p.c, at);
    var w0, w1, w2 := Edge(p.b, p.c, at), Edge(p.c, p.a, at), Edge(p.a, p.b, at);
    var s := if Edge(p.a, p.b, p.c) > 0.0 then 1.0 else -1.0;
    Balanced(s, w0, w1, w2, p.a.x - at.x, p.b.x - at.x, p.c.x - at.x);
    Balanced(s, w0, w1, w2, p.a.y - at.y, p.b.y - at.y, p.c.y - at.y);
  }

  lemma Balanced(s: real, w0: real, w1: real, w2: real, u: real, v: real, w: real)
    requires s == 1.0 || s == -1.0
    requires s * w0 >= 0.0 && s * w1 >= 0.0 && s * w2 >= 0.0 && s * (w0 + w1 + w2) > 0.0
    requires w0 * u + w1 * v + w2 * w == 0.0
    ensures !(u > 0.0 && v > 0.0 && w > 0.0)
    ensures !(u < 0.0 && v < 0.0 && w < 0.0)
  {
    if u > 0.0 && v > 0.0 && w > 0.0 {
      Unbalanced(s * w0, s * w1, s * w2, u, v, w);
    }
    if u < 0.0 && v < 0.0 && w < 0.0 {
      Unbalanced(s * w0, s * w1, s * w2, -u, -v, -w);
    }
  }

  /** The minor advance never exceeds the minor distance, and 32-bit arithmetic does not wrap. */
  lemma AdvanceWithinMinor(step: nat, minor: nat, major: nat)
    requires step <= major && 0 < major <= 65536 && minor <= major
    ensures 0 <= Advance(step, minor, major) <= minor
  {
    if step < major {
      RoundedStep(step, minor, major);
      CeilingOfQuotient(step * minor + major / 2, minor + 1, major);
    }
  }

  lemma RoundedStep(step: nat, minor: nat, major: nat)
    requires step < major <= 65536 && minor <= major
    ensures 0 <= step * minor + major / 2 < (minor + 1) * major
    ensures (step * minor + major / 2) % U32_LIMIT == step * minor + major / 2
  {
    MulMono(step, major - 1, minor);
    MulMono(minor, 65536, major - 1);
    assert (major - 1) * minor == minor * (major - 1) == minor * major - minor;
    assert (minor + 1) * major == minor * major + major;
    assert 65536 * (major - 1) + 65536 <= 65536 * 65536;
  }

  lemma CeilingOfQuotient(n: nat, q: nat, d: nat)
    requires d > 0 && n < q * d
    ensures n / d < q
  {
    if n / d >= q {
      MulMono(q, n / d, d);
    }
  }

  lemma LineWithinEnds(sx: int, sy: int, ex: int, ey: int, x: int, y: int)
    requires LineCell(sx, sy, ex, ey, x, y)
    requires Abs(ex - sx) <= 65536 && Abs(ey - sy) <= 65536
    ensures Min(sx, ex) <= x <= Max(sx, ex)
    ensures Min(sy, ey) <= y <= Max(sy, ey)
  {
    var dx, dy := Abs(ex - sx), Abs(ey - sy);
    var major := Max(dx, dy);
    var step := if dx >= dy then (if sx < ex then x - sx else sx - x) else (if sy < ey then y - sy else sy - y);
    if major > 0 {
      AdvanceWithinMinor(step, if dx >= dy then dy else dx, major);
    }
  }

  /** Every pixel the shader paints lies inside the primitive's clipped bounds. */
  lemma BoundsAreConservative(p: Primitive, x: nat, y: nat, width: nat, height: nat)
    requires Drawable(p) && Covers(p, x, y) && x < width && y < height
    ensures PrimitiveBounds(p, width, height).Contains(x, y)
  {
    match p.kind {
      case Triangles => TriangleWithinCorners(p, Vertex(x as real, y as real));
      case Lines => LineWithinEnds(p.a.x.Floor, p.a.y.Floor, p.b.x.Floor, p.b.y.Floor, x, y);
      case Points =>
    }
  }

  // ---------- Tile lists ----------

  /** The clipped bounds and the 16 by 16 tile share a pixel position. */
  predicate Meets(b: Bounds, tx: nat, ty: nat) {
    && !b.Empty()
    && b.left < (tx + 1) * TILE_SIZE && tx * TILE_SIZE < b.right
    && b.top < (ty + 1) * TILE_SIZE && ty * TILE_SIZE < b.bottom
  }

  function FirstX(b: Bounds): nat { b.left / TILE_SIZE }
  function EndX(b: Bounds): nat { CeilDiv(b.right, TILE_SIZE) }
  function FirstY(b: Bounds): nat { b.top / TILE_SIZE }
  function EndY(b: Bounds): nat { CeilDiv(b.bottom, TILE_SIZE) }

  /** The tile ranges the loops visit are exactly the tiles met. */
  lemma VisitedIsMet(b: Bounds, tx: nat, ty: nat)
    ensures Meets(b, tx, ty) <==> !b.Empty() && FirstX(b) <= tx < EndX(b) && FirstY(b) <= ty < EndY(b)
  {
  }

  /** The specification: the increasing indices, below `n`, of the primitives meeting a tile. */
  function TileList(bounds: seq<Bounds>, n: nat, tx: nat, ty: nat): (list: seq<nat>)
    requires n <= |bounds|
    ensures forall k :: 0 <= k < |list| ==> list[k] < n
  {
    if n == 0 then []
    else if Meets(bounds[n - 1], tx, ty) then TileList(bounds, n - 1, tx, ty) + [n - 1]
    else TileList(bounds, n - 1, tx, ty)
  }

  /** A list holds exactly the primitives that meet its tile, once each and in drawing order. */
  lemma {:induction false} TileListIsExact(bounds: seq<Bounds>, n: nat, tx: nat, ty: nat)
    requires n <= |bounds|
    ensures var list := TileList(bounds, n, tx, ty);
            && (forall j, k :: 0 <= j < k < |list| ==> list[j] < list[k])
            && (forall i :: i in list <==> 0 <= i < n && Meets(bounds[i], tx, ty))
  {
    if n > 0 {
      TileListIsExact(bounds, n - 1, tx, ty);
    }
  }

  /** What binning needs to know of a primitive: clipped bounds, and the raster work of each tile. */
  datatype Extent = Extent(bounds: Bounds, cost: (nat, nat) -> nat) {
    function Work(): nat {
      if bounds.Empty() then 0 else BlockWork(cost, FirstX(bounds), EndX(bounds), FirstY(bounds), EndY(bounds))
    }
  }

  /** Work of rasterizing one tile: its pixels inside the frame, times the lighting cost. */
  function TileCost(width: nat, height: nat, lighting: nat): (nat, nat) -> nat {
    (tx: nat, ty: nat) =>
      var across: nat, down: nat := Clamp(width - tx * TILE_SIZE, 0, TILE_SIZE),
          Clamp(height - ty * TILE_SIZE, 0, TILE_SIZE);
      across * down * lighting
  }

  function Measure(width: nat, height: nat): Primitive -> Extent {
    (p: Primitive) => Extent(PrimitiveBounds(p, width, height), TileCost(width, height, 1 + p.lights))
  }

  function ExtentOf<P>(measure: P -> Extent, p: P): Extent { measure(p) }

  function AllBounds<P>(measure: P -> Extent, primitives: seq<P>): (bounds: seq<Bounds>)
    ensures |bounds| == |primitives|
  {
    seq(|primitives|, i requires 0 <= i < |primitives| => ExtentOf(measure, primitives[i]).bounds)
  }

  // ---------- Painting ----------

  /** Painting one pixel with primitives 0 to n in order; `step` paints one of them. */
  function PaintAll<P, T>(step: (P, T) -> T, primitives: seq<P>, n: nat, pixel: T): T
    requires n <= |primitives|
  {
    if n == 0 then pixel else step(primitives[n - 1], PaintAll(step, primitives, n - 1, pixel))
  }

  /** The shader's entry loop over a list of indices. */
  function PaintListed<P, T>(step: (P, T) -> T, primitives: seq<P>, list: seq<nat>, pixel: T): T
    requires forall k :: 0 <= k < |list| ==> list[k] < |primitives|
  {
    if list == [] then pixel
    else
      var last := |list| - 1;
      step(primitives[list[last]], PaintListed(step, primitives, list[..last], pixel))
  }

  /** Leaving out primitives that do not change the pixel changes nothing. */
  lemma {:induction false} SkippingIdlePrimitives<P, T(!new)>(
      step: (P, T) -> T, primitives: seq<P>, bounds: seq<Bounds>, n: nat, tx: nat, ty: nat, pixel: T)
    requires n <= |primitives| == |bounds|
    requires forall i :: 0 <= i < n && !Meets(bounds[i], tx, ty) ==> Idle(step, primitives[i])
    ensures PaintListed(step, primitives, TileList(bounds, n, tx, ty), pixel) == PaintAll(step, primitives, n, pixel)
  {
    if n > 0 {
      SkippingIdlePrimitives(step, primitives, bounds, n - 1, tx, ty, pixel);
      var before := TileList(bounds, n - 1, tx, ty);
      if Meets(bounds[n - 1], tx, ty) {
        assert (before + [n - 1])[..|before|] == before;
      } else {
        assert Idle(step, primitives[n - 1]);
      }
    }
  }

  /** A primitive that leaves the pixel alone, whatever its state. */
  ghost predicate Idle<P, T(!new)>(step: (P, T) -> T, p: P) { forall t :: step(p, t) == t }

  /** One primitive at one pixel: `paint` is the depth test, shading and blending. */
  function Shade<T>(paint: (Primitive, int, int, T) -> T, x: int, y: int): (Primitive, T) -> T {
    (p: Primitive, pixel: T) => if Covers(p, x, y) then paint(p, x, y, pixel) else pixel
  }

  /** A tile's list paints each of its pixels exactly as the whole list does: same primitives
      that matter, same order, whatever the depth test and blending do. */
  lemma TileListPaintsSame<T(!new)>(paint: (Primitive, int, int, T) -> T, primitives: seq<Primitive>,
                                    width: nat, height: nat, x: nat, y: nat, pixel: T)
    requires forall i :: 0 <= i < |primitives| ==> Drawable(primitives[i])
    requires x < width && y < height
    ensures var list := TileList(AllBounds(Measure(width, height), primitives), |primitives|, x / TILE_SIZE,
                                 y / TILE_SIZE);
            PaintListed(Shade(paint, x, y), primitives, list, pixel)
                == PaintAll(Shade(paint, x, y), primitives, |primitives|, pixel)
  {
    var bounds := AllBounds(Measure(width, height), primitives);
    forall i | 0 <= i < |primitives| && !Meets(bounds[i], x / TILE_SIZE, y / TILE_SIZE)
      ensures Idle(Shade(paint, x, y), primitives[i])
    {
      if Covers(primitives[i], x, y) {
        BoundsAreConservative(primitives[i], x, y, width, height);
      }
    }
    SkippingIdlePrimitives(Shade(paint, x, y), primitives, bounds, |primitives|, x / TILE_SIZE, y / TILE_SIZE, pixel);
  }

  // ---------- Budget ----------

  function CostAt(cost: (nat, nat) -> nat, tx: nat, ty: nat): nat { cost(tx, ty) }

  function RowWork(cost: (nat, nat) -> nat, ty: nat, x0: nat, x1: nat): nat
    decreases x1
  {
    if x1 <= x0 then 0 else RowWork(cost, ty, x0, x1 - 1) + CostAt(cost, x1 - 1, ty)
  }

  function BlockWork(cost: (nat, nat) -> nat, x0: nat, x1: nat, y0: nat, y1: nat): nat
    decreases y1
  {
    if y1 <= y0 then 0 else BlockWork(cost, x0, x1, y0, y1 - 1) + RowWork(cost, y1 - 1, x0, x1)
  }

  /** Tiles in `down` rows of `across`. */
  function TilesIn(across: nat, down: nat): nat {
    if down == 0 then 0 else TilesIn(across, down - 1) + across
  }

  lemma {:induction false} TilesInIsProduct(across: nat, down: nat)
    ensures TilesIn(across, down) == across * down
  {
    if down > 0 {
      TilesInIsProduct(across, down - 1);
    }
  }

  lemma {:induction false} TilesGrow(across: nat, m: nat, n: nat)
    requires m <= n
    ensures TilesIn(across, m) <= TilesIn(across, n)
  {
    if m < n {
      TilesGrow(across, m, n - 1);
    }
  }

  function PrimitiveEntries(b: Bounds): nat {
    var across: nat, down: nat := Max(0, EndX(b) - FirstX(b)), Max(0, EndY(b) - FirstY(b));
    if b.Empty() then 0 else TilesIn(across, down)
  }

  function AllWork<P>(measure: P -> Extent, primitives: seq<P>): (works: seq<nat>)
    ensures |works| == |primitives|
  {
    seq(|primitives|, i requires 0 <= i < |primitives| => ExtentOf(measure, primitives[i]).Work())
  }

  function AllEntries(bounds: seq<Bounds>): (entries: seq<nat>)
    ensures |entries| == |bounds|
  {
    seq(|bounds|, i requires 0 <= i < |bounds| => PrimitiveEntries(bounds[i]))
  }

  function Sum(s: seq<nat>, n: nat): nat
    requires n <= |s|
  {
    if n == 0 then 0 else Sum(s, n - 1) + s[n - 1]
  }

  lemma {:induction false} SumGrows(s: seq<nat>, m: nat, n: nat)
    requires m <= n <= |s|
    ensures Sum(s, m) <= Sum(s, n)
  {
    if m < n {
      SumGrows(s, m, n - 1);
    }
  }

  lemma {:induction false} BlockGrows(cost: (nat, nat) -> nat, x0: nat, x1: nat, y0: nat, y: nat, y1: nat)
    requires y <= y1
    ensures BlockWork(cost, x0, x1, y0, y) <= BlockWork(cost, x0, x1, y0, y1)
    decreases y1
  {
    if y < y1 {
      BlockGrows(cost, x0, x1, y0, y, y1 - 1);
    }
  }

  lemma {:induction false} RowGrows(cost: (nat, nat) -> nat, ty: nat, x0: nat, x: nat, x1: nat)
    requires x <= x1
    ensures RowWork(cost, ty, x0, x) <= RowWork(cost, ty, x0, x1)
    decreases x1
  {
    if x < x1 {
      RowGrows(cost, ty, x0, x, x1 - 1);
    }
  }

  /** What a frame needs and what the device allows: storage for headers and entries, and raster work. */
  predicate Allowed(count: nat, entries: nat, work: nat, limit: nat) {
    (count * 2 + entries) * 4 <= limit && work <= MAX_RASTER_WORK
  }

  predicate FitsDevice(primitives: seq<Primitive>, width: nat, height: nat, limit: nat) {
    Allowed(CeilDiv(width, TILE_SIZE) * CeilDiv(height, TILE_SIZE),
            Sum(AllEntries(AllBounds(Measure(width, height), primitives)), |primitives|),
            Sum(AllWork(Measure(width, height), primitives), |primitives|), limit)
  }
}
