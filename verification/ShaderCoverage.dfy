/** The coverage tests of the shader (gpu_compute/qd3d.wgsl) in geometric terms: a triangle covers the hull of
    its corners, a line the cells within half a cell of the segment between its ends, one for each step. */
module ShaderCoverage {
  import opened Base
  import opened TileBinning

  /** Nonnegative weights that sum to one. */
  predicate Weights(u: real, v: real, w: real) { u >= 0.0 && v >= 0.0 && w >= 0.0 && u + v + w == 1.0 }

  function Mixed(a: real, b: real, c: real, u: real, v: real, w: real): real { u * a + v * b + w * c }

  /** The point is a mixture of the corners. */
  predicate IsMixture(p: Primitive, at: Vertex, u: real, v: real, w: real) {
    Weights(u, v, w) && at.x == Mixed(p.a.x, p.b.x, p.c.x, u, v, w) && at.y == Mixed(p.a.y, p.b.y, p.c.y, u, v, w)
  }

  lemma Difference(a: real, b: real, c: real, u: real, v: real, w: real)
    requires u + v + w == 1.0
    ensures Mixed(a, b, c, u, v, w) - b == u * (a - b) + w * (c - b)
  {
    assert v == 1.0 - u - w;
    assert (1.0 - u - w) * b == b - u * b - w * b;
  }

  lemma Cross(u: real, w: real, dx: real, dy: real, ex: real, ey: real)
    ensures (u * dx + w * ex) * ey - (u * dy + w * ey) * ex == u * (dx * ey - dy * ex)
  {
    assert (u * dx + w * ex) * ey == u * (dx * ey) + w * (ex * ey);
    assert (u * dy + w * ey) * ex == u * (dy * ex) + w * (ex * ey);
  }

  /** The edge function of the side opposite a corner is the corner's weight times the area. */
  lemma EdgeOfMixture(a: Vertex, b: Vertex, c: Vertex, at: Vertex, u: real, v: real, w: real)
    requires u + v + w == 1.0
    requires at.x == Mixed(a.x, b.x, c.x, u, v, w) && at.y == Mixed(a.y, b.y, c.y, u, v, w)
    ensures Edge(b, c, at) == u * Edge(b, c, a)
  {
    Difference(a.x, b.x, c.x, u, v, w);
    Difference(a.y, b.y, c.y, u, v, w);
    Cross(u, w, a.x - b.x, a.y - b.y, c.x - b.x, c.y - b.y);
  }

  lemma Rotate(a: Vertex, b: Vertex, c: Vertex)
    ensures Edge(b, c, a) == Edge(a, b, c) == Edge(c, a, b)
  {
  }

  lemma MixtureIsCovered(p: Primitive, at: Vertex, u: real, v: real, w: real)
    requires IsMixture(p, at, u, v, w)
    ensures TriangleCovers(p, at)
  {
    var area := Edge(p.a, p.b, p.c);
    Rotate(p.a, p.b, p.c);
    EdgeOfMixture(p.a, p.b, p.c, at, u, v, w);
    EdgeOfMixture(p.b, p.c, p.a, at, v, w, u);
    EdgeOfMixture(p.c, p.a, p.b, at, w, u, v);
    SameSign(u, area);
    SameSign(v, area);
    SameSign(w, area);
  }

  lemma SameSign(u: real, area: real)
    requires u >= 0.0
    ensures area > 0.0 ==> u * area >= 0.0
    ensures area < 0.0 ==> u * area <= 0.0
  {
    if area < 0.0 {
      assert u * -area >= 0.0;
    }
  }

  lemma Quotients(w0: real, w1: real, w2: real, area: real, a: real, b: real, c: real, at: real)
    requires area != 0.0 && w0 + w1 + w2 == area
    requires w0 * (a - at) + w1 * (b - at) + w2 * (c - at) == 0.0
    ensures at == Mixed(a, b, c, w0 / area, w1 / area, w2 / area)
  {
    var u, v, w := w0 / area, w1 / area, w2 / area;
    assert w0 == u * area && w1 == v * area && w2 == w * area;
    var whole := Mixed(a, b, c, u, v, w);
    assert u * area * a + v * area * b + w * area * c == area * whole;
    assert w0 * a + w1 * b + w2 * c == area * at by {
      assert w0 * at + w1 * at + w2 * at == (w0 + w1 + w2) * at;
    }
    Cancel(area, whole, at);
  }

  lemma Cancel(k: real, a: real, b: real)
    requires k != 0.0 && k * a == k * b
    ensures a == b
  {
    assert k * (a - b) == 0.0;
  }

  lemma Share(w0: real, area: real)
    requires area != 0.0 && (area > 0.0 ==> w0 >= 0.0) && (area < 0.0 ==> w0 <= 0.0)
    ensures w0 / area >= 0.0
  {
  }

  lemma SharesSum(w0: real, w1: real, w2: real, area: real)
    requires area != 0.0 && w0 + w1 + w2 == area
    ensures w0 / area + w1 / area + w2 / area == 1.0
  {
  }

  /** A proper triangle covers exactly the mixtures of its corners, whichever way round they are given. */
  lemma TriangleIsHull(p: Primitive, at: Vertex)
    requires Edge(p.a, p.b, p.c) != 0.0
    ensures TriangleCovers(p, at) <==> exists u, v, w :: IsMixture(p, at, u, v, w)
  {
    if TriangleCovers(p, at) {
      var area := Edge(p.a, p.b, p.c);
      var w0, w1, w2 := Edge(p.b, p.c, at), Edge(p.c, p.a, at), Edge(p.a, p.b, at);
      Barycentric(p.a, p.b, p.c, at);
      Share(w0, area);
      Share(w1, area);
      Share(w2, area);
      SharesSum(w0, w1, w2, area);
      Quotients(w0, w1, w2, area, p.a.x, p.b.x, p.c.x, at.x);
      Quotients(w0, w1, w2, area, p.a.y, p.b.y, p.c.y, at.y);
      assert IsMixture(p, at, w0 / area, w1 / area, w2 / area);
    }
    if u, v, w :| IsMixture(p, at, u, v, w) {
      MixtureIsCovered(p, at, u, v, w);
    }
  }

  // ---------- Lines ----------

  /** Within half a step of the exact minor distance. */
  lemma AdvanceIsNearest(step: nat, minor: nat, major: nat)
    requires step <= major && 0 < major <= 65536 && minor <= major
    ensures 2 * Abs(Advance(step, minor, major) * major - step * minor) <= major
  {
    if step < major {
      RoundedStep(step, minor, major);
      var n := step * minor + major / 2;
      var q := n / major;
      assert n == q * major + n % major;
    } else {
      assert minor * major == step * minor;
    }
  }

  /** The signed distance of a cell from the line through the ends, times the length. */
  function Offset(sx: int, sy: int, ex: int, ey: int, x: int, y: int): int {
    (y - sy) * (ex - sx) - (x - sx) * (ey - sy)
  }

  lemma Signs(step: nat, advance: nat, minor: nat, major: nat, s: int, t: int)
    requires (s == 1 || s == -1) && (t == 1 || t == -1)
    ensures Abs((t * advance) * (s * major) - (s * step) * (t * minor)) == Abs(advance * major - step * minor)
  {
  }

  /** A covered cell is within half a cell of the line, measured along the minor axis. */
  lemma LineIsNearest(sx: int, sy: int, ex: int, ey: int, x: int, y: int)
    requires LineCell(sx, sy, ex, ey, x, y) && Abs(ex - sx) <= 65536 && Abs(ey - sy) <= 65536
    ensures 2 * Abs(Offset(sx, sy, ex, ey, x, y)) <= Max(Abs(ex - sx), Abs(ey - sy))
  {
    var dx, dy := Abs(ex - sx), Abs(ey - sy);
    var s, t := if sx < ex then 1 else -1, if sy < ey then 1 else -1;
    if dx >= dy && dx > 0 {
      var step := s * (x - sx);
      AdvanceIsNearest(step, dy, dx);
      Signs(step, Advance(step, dy, dx), dy, dx, s, t);
    } else if dx < dy {
      var step := t * (y - sy);
      AdvanceIsNearest(step, dx, dy);
      Signs(step, Advance(step, dx, dy), dx, dy, t, s);
    }
  }

  lemma NoAdvance(minor: nat, major: nat)
    requires 0 < major <= 65536
    ensures Advance(0, minor, major) == 0
  {
    CeilingOfQuotient(major / 2, 1, major);
  }

  /** Both ends are covered. */
  lemma LineHasEnds(sx: int, sy: int, ex: int, ey: int)
    requires Abs(ex - sx) <= 65536 && Abs(ey - sy) <= 65536
    ensures LineCell(sx, sy, ex, ey, sx, sy) && LineCell(sx, sy, ex, ey, ex, ey)
  {
    var dx, dy := Abs(ex - sx), Abs(ey - sy);
    if dx >= dy && dx > 0 {
      NoAdvance(dy, dx);
    } else if dx < dy {
      NoAdvance(dx, dy);
    }
  }

  /** Each column between the ends of a flat line has exactly one covered cell. */
  lemma FlatLineIsUnbroken(sx: int, sy: int, ex: int, ey: int, x: int) returns (y: int)
    requires Abs(ex - sx) >= Abs(ey - sy) && Min(sx, ex) <= x <= Max(sx, ex)
    ensures forall y' :: LineCell(sx, sy, ex, ey, x, y') <==> y' == y
  {
    var step := if sx < ex then x - sx else sx - x;
    y := if sx == ex then sy else Towards(sy, ey, Advance(step, Abs(ey - sy), Abs(ex - sx)));
  }

  /** Each row between the ends of a steep one likewise. */
  lemma SteepLineIsUnbroken(sx: int, sy: int, ex: int, ey: int, y: int) returns (x: int)
    requires Abs(ex - sx) < Abs(ey - sy) && Min(sy, ey) <= y <= Max(sy, ey)
    ensures forall x' :: LineCell(sx, sy, ex, ey, x', y) <==> x' == x
  {
    var step := if sy < ey then y - sy else sy - y;
    x := Towards(sx, ex, Advance(step, Abs(ex - sx), Abs(ey - sy)));
  }
}
