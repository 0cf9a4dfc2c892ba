/** A stable image origin for the native cursor shapes seen so far (host_cursor_layout.rs), so that
    switching between them does not move the hotspot. */
module CursorLayouts {
  import opened Base
  import opened CursorDrawing

  const MAX_SHAPES := 64
  const BROWSER_LIMIT := 128
  const CLEAR := Pixel(0, 0, 0, 0)

  datatype Size = Size(width: nat, height: nat, hotH: nat, hotV: nat)
  {
    predicate Valid() { hotH < width && hotV < height }
  }

  function Rounded(x: real): int { (x + 0.5).Floor }

  /** The native size at a display scale, unless it exceeds what browsers show. */
  function Scaled(size: Size, scale: real): (scaled: Option<Size>)
    ensures scaled.Some? ==> scaled.value.Valid()
    ensures scaled.Some? ==> scaled.value.width <= BROWSER_LIMIT && scaled.value.height <= BROWSER_LIMIT
  {
    if scale <= 0.0 then None
    else Whole(Times(size.width, scale), Times(size.height, scale), Times(size.hotH, scale), Times(size.hotV, scale))
  }

  function Times(n: nat, scale: real): (x: real)
    ensures scale > 0.0 ==> x >= 0.0
  {
    n as real * scale
  }

  function Whole(w: real, h: real, x: real, y: real): (size: Option<Size>)
    ensures size.Some? ==> size.value.Valid()
    ensures size.Some? ==> size.value.width <= BROWSER_LIMIT && size.value.height <= BROWSER_LIMIT
  {
    var width, height := Max(Rounded(w), 1), Max(Rounded(h), 1);
    if width > BROWSER_LIMIT || height > BROWSER_LIMIT then None
    else Some(Size(width, height, Min(Max(Rounded(x), 0), width - 1), Min(Max(Rounded(y), 0), height - 1)))
  }

  /** The whole number nearest to a nonnegative real, the greater one of two. */
  predicate Nearest(n: int, x: real) { n as real - 0.5 <= x < n as real + 0.5 }

  /** Each side is scaled to the nearest whole number of at least one, and the hotspot likewise, kept inside;
      refused exactly when a side passes the limit. */
  lemma ScaledIsNearest(size: Size, scale: real, w: real, h: real, x: real, y: real)
    requires scale > 0.0 && w == Times(size.width, scale) && h == Times(size.height, scale)
    requires x == Times(size.hotH, scale) && y == Times(size.hotV, scale)
    ensures Scaled(size, scale).None? <==> w >= 128.5 || h >= 128.5
    ensures Scaled(size, scale).Some? ==>
              IsSide(Scaled(size, scale).value.width, w) && IsSide(Scaled(size, scale).value.height, h)
    ensures Scaled(size, scale).Some? ==>
              var s := Scaled(size, scale).value; IsSpot(s.hotH, s.width, x) && IsSpot(s.hotV, s.height, y)
  {
    WholeIsNearest(w, h, x, y);
  }

  lemma WholeIsNearest(w: real, h: real, x: real, y: real)
    requires x >= 0.0 && y >= 0.0
    ensures Whole(w, h, x, y).None? <==> w >= 128.5 || h >= 128.5
    ensures Whole(w, h, x, y).Some? ==>
              var s := Whole(w, h, x, y).value;
              && IsSide(s.width, w) && IsSide(s.height, h) && IsSpot(s.hotH, s.width, x) && IsSpot(s.hotV, s.height, y)
  {
  }

  predicate IsSide(side: int, x: real) { if x < 0.5 then side == 1 else Nearest(side, x) }

  predicate IsSpot(spot: int, side: int, x: real) {
    if x >= side as real - 0.5 then spot == side - 1 else Nearest(spot, x)
  }

  /** An image and its hotspot; the rows in one buffer. */
  datatype Picture = Picture(size: Size, rows: seq<seq<Pixel>>)
  {
    ghost predicate Valid() {
      size.Valid() && |rows| == size.height && forall y :: 0 <= y < |rows| ==> |rows[y]| == size.width
    }

    predicate Shows(y: int, x: int)
      requires Valid()
    {
      0 <= y < size.height && 0 <= x < size.width && rows[y][x].a != 0
    }
  }

  // ---------- Shapes ----------

  /** A cursor size and the half-open bounds of its visible pixels. */
  datatype Shape = Shape(size: Size, left: nat, top: nat, right: nat, bottom: nat)

  /** Visible and visited: above row `n`, or in it before column `c`. */
  predicate Seen(p: Picture, n: nat, c: nat, y: int, x: int)
    requires p.Valid()
  {
    p.Shows(y, x) && (y < n || (y == n && x < c))
  }

  ghost predicate ColumnSeen(p: Picture, n: nat, c: nat, x: int)
    requires p.Valid()
  {
    exists y :: Seen(p, n, c, y, x)
  }

  ghost predicate RowSeen(p: Picture, n: nat, c: nat, y: int)
    requires p.Valid()
  {
    exists x :: Seen(p, n, c, y, x)
  }

  /** Visiting more loses nothing. */
  lemma SeenGrows(p: Picture, n: nat, c: nat, n': nat, c': nat, y: int, x: int)
    requires p.Valid() && (n < n' || (n == n' && c <= c')) && c <= p.size.width
    ensures ColumnSeen(p, n, c, x) ==> ColumnSeen(p, n', c', x)
    ensures RowSeen(p, n, c, y) ==> RowSeen(p, n', c', y)
  {
    if ColumnSeen(p, n, c, x) {
      var y' :| Seen(p, n, c, y', x);
      assert Seen(p, n', c', y', x);
    }
    if RowSeen(p, n, c, y) {
      var x' :| Seen(p, n, c, y, x');
      assert Seen(p, n', c', y, x');
    }
  }

  /** The bounds enclose every visible pixel seen, and each side touches one. */
  ghost predicate Hull(s: Shape, p: Picture, n: nat, c: nat)
    requires p.Valid()
  {
    && s.size == p.size
    && (forall y, x :: Seen(p, n, c, y, x) ==> s.left <= x < s.right && s.top <= y < s.bottom)
    && if s.right == 0 then s == Shape(p.size, p.size.width, p.size.height, 0, 0)
       else
         && ColumnSeen(p, n, c, s.left) && ColumnSeen(p, n, c, s.right - 1)
         && RowSeen(p, n, c, s.top) && RowSeen(p, n, c, s.bottom - 1)
  }

  /** The exact alpha bounds of a picture that shows anything at all. */
  ghost predicate Bounds(s: Shape, p: Picture)
    requires p.Valid()
  {
    Hull(s, p, p.size.height, 0) && s.right > 0
  }

  ghost predicate Blank(p: Picture)
    requires p.Valid()
  {
    forall y, x :: !p.Shows(y, x)
  }

  function Widened(s: Shape, y: nat, x: nat): Shape {
    s.(left := Min(s.left, x), top := Min(s.top, y), right := Max(s.right, x + 1), bottom := Max(s.bottom, y + 1))
  }

  lemma HullStep(s: Shape, p: Picture, n: nat, c: nat, c': nat)
    requires p.Valid() && n < p.size.height && c < p.size.width && c' == c + 1 && Hull(s, p, n, c)
    ensures Hull(if p.rows[n][c].a != 0 then Widened(s, n, c) else s, p, n, c')
  {
    SeenGrows(p, n, c, n, c', s.top, s.left);
    SeenGrows(p, n, c, n, c', s.bottom - 1, s.right - 1);
    assert forall y, x :: Seen(p, n, c', y, x) ==> Seen(p, n, c, y, x) || (y == n && x == c);
    if p.rows[n][c].a != 0 {
      assert Seen(p, n, c', n, c);
      assert ColumnSeen(p, n, c', c) && RowSeen(p, n, c', n);
    }
  }

  lemma HullNextRow(s: Shape, p: Picture, n: nat, n': nat)
    requires p.Valid() && n < p.size.height && n' == n + 1 && Hull(s, p, n, p.size.width)
    ensures Hull(s, p, n', 0)
  {
    SeenGrows(p, n, p.size.width, n', 0, s.top, s.left);
    SeenGrows(p, n, p.size.width, n', 0, s.bottom - 1, s.right - 1);
    assert forall y, x :: Seen(p, n', 0, y, x) ==> Seen(p, n, p.size.width, y, x);
  }

  lemma HullWhole(s: Shape, p: Picture)
    requires p.Valid() && Hull(s, p, p.size.height, 0)
    ensures s.right == 0 <==> Blank(p)
    ensures s.right > 0 ==> s.left < s.right <= p.size.width && s.top < s.bottom <= p.size.height
  {
    assert forall y, x :: p.Shows(y, x) <==> Seen(p, p.size.height, 0, y, x);
  }

  /** There is only one set of exact bounds. */
  lemma BoundsAreUnique(a: Shape, b: Shape, p: Picture)
    requires p.Valid() && Bounds(a, p) && Bounds(b, p)
    ensures a == b
  {
  }

  // ---------- The room a shape needs around its hotspot ----------

  datatype Room = Room(left: nat, top: nat, right: nat, bottom: nat)
  {
    predicate Covers(other: Room) {
      left >= other.left && top >= other.top && right >= other.right && bottom >= other.bottom
    }
    function Union(other: Room): (both: Room)
      ensures both.Covers(this) && both.Covers(other)
    {
      Room(Max(left, other.left), Max(top, other.top), Max(right, other.right), Max(bottom, other.bottom))
    }
  }

  const NO_ROOM := Room(0, 0, 0, 0)

  /** The first destination sample taken from source position `bound` or later. */
  function Transformed(bound: nat, dest: nat, source: nat): nat
    requires source > 0
  {
    CeilDiv(bound * dest, source)
  }

  /** Nearest sampling takes destination `x` from source column floor(x * source / dest). It falls
      in [left, right) exactly when `x` lies between the transformed bounds. */
  lemma SampleDuality(x: nat, left: nat, right: nat, source: nat, dest: nat)
    requires source > 0 && dest > 0
    ensures left <= x * source / dest < right
            <==> Transformed(left, dest, source) <= x < Transformed(right, dest, source)
  {
    CeilDivIsLeast(left * dest, source, x);
    CeilDivIsLeast(right * dest, source, x);
    FloorIsGreatest(left, x * source, dest);
    FloorIsGreatest(right, x * source, dest);
  }

  lemma FloorIsGreatest(q: nat, a: nat, b: nat)
    requires b > 0
    ensures q <= a / b <==> q * b <= a
  {
    var f := a / b;
    assert a == f * b + a % b;
    if q <= f {
      MulMono(q, f, b);
    } else {
      MulMono(f + 1, q, b);
      assert (f + 1) * b == f * b + b;
    }
  }

  function Needed(s: Shape, scale: real): Room
    requires s.size.Valid()
  {
    var scaled := Scaled(s.size, scale);
    if scaled.None? then NO_ROOM
    else
      var t := scaled.value;
      var x0, y0 := Transformed(s.left, t.width, s.size.width), Transformed(s.top, t.height, s.size.height);
      var x1, y1 := Transformed(s.right, t.width, s.size.width), Transformed(s.bottom, t.height, s.size.height);
      if x0 == x1 || y0 == y1 then NO_ROOM
      else Room(Max(t.hotH - x0, 0), Max(t.hotV - y0, 0), Max(x1 - (t.hotH + 1), 0), Max(y1 - (t.hotV + 1), 0))
  }

  function RoomFor(shapes: seq<Shape>, scale: real): Room
    requires forall k :: 0 <= k < |shapes| ==> shapes[k].size.Valid()
  {
    if shapes == [] then NO_ROOM
    else RoomFor(shapes[..|shapes| - 1], scale).Union(Needed(shapes[|shapes| - 1], scale))
  }

  /** It is exactly the least room that covers every shape's. */
  lemma {:induction false} RoomIsLeast(shapes: seq<Shape>, scale: real, room: Room)
    requires forall k :: 0 <= k < |shapes| ==> shapes[k].size.Valid()
    ensures room.Covers(RoomFor(shapes, scale))
       <==> forall k :: 0 <= k < |shapes| ==> room.Covers(Needed(shapes[k], scale))
  {
    if shapes != [] {
      var n := |shapes| - 1;
      RoomIsLeast(shapes[..n], scale, room);
      assert forall k :: 0 <= k < n ==> shapes[..n][k] == shapes[k];
    }
  }

  ghost predicate PowerOf(p: nat, from: nat)
    requires from > 0
    decreases p - from
  {
    p == from || (from < p && PowerOf(p, 2 * from))
  }

  lemma {:induction false} NextPowerIsLeast(n: nat, from: nat, p: nat)
    requires from > 0 && PowerOf(p, from)
    ensures PowerOf(Doubled(from, n), from)
    ensures n <= p ==> Doubled(from, n) <= p
    decreases n - from
  {
    PowerAtLeast(p, from);
    if n > from {
      if p == from {
        NextPowerIsLeast(n, 2 * from, 2 * from);
      } else {
        NextPowerIsLeast(n, 2 * from, p);
      }
      PowerAtLeast(Doubled(2 * from, n), 2 * from);
    }
  }

  lemma {:induction false} PowerAtLeast(p: nat, from: nat)
    requires from > 0 && PowerOf(p, from)
    ensures p >= from
    decreases p - from
  {
  }

  /** A layout with the hotspot far enough from every side. */
  predicate Encloses(layout: Size, room: Room) {
    && room.left <= layout.hotH && layout.hotH + room.right < layout.width
    && room.top <= layout.hotV && layout.hotV + room.bottom < layout.height
  }

  function Square(room: Room): Option<Size> {
    var side := Max(NextPowerOfTwo(Max(room.left + room.right + 1, room.top + room.bottom + 1)), 32);
    if side <= BROWSER_LIMIT then Some(Size(side, side, room.left, room.top)) else None
  }

  lemma LeastSide(n: nat, side: nat)
    requires PowerOf(side, 1) && side >= 32 && n <= side
    ensures Max(NextPowerOfTwo(n), 32) <= side
  {
    NextPowerIsLeast(n, 1, side);
  }

  /** The square encloses the room; no smaller power of two of at least 32 does, whatever the
      hotspot, and if there is no square then none within the browser's limit does. */
  lemma SquareIsLeast(room: Room, layout: Size)
    requires Encloses(layout, room) && layout.width == layout.height && layout.width >= 32 && PowerOf(layout.width, 1)
    ensures Square(room).Some? ==> Square(room).value.width <= layout.width
    ensures Square(room).None? ==> layout.width > BROWSER_LIMIT
  {
    LeastSide(Max(room.left + room.right + 1, room.top + room.bottom + 1), layout.width);
  }

  lemma SquareEncloses(room: Room)
    ensures Square(room).Some? ==> Encloses(Square(room).value, room) && Square(room).value.Valid()
  {
  }

  // ---------- Sampling and repacking ----------

  lemma SourceIndex(x: nat, source: nat, dest: nat)
    requires x < dest && source > 0
    ensures x * source / dest < source
  {
    MulMono(x + 1, dest, source);
    assert (x + 1) * source == x * source + source;
    FloorIsGreatest(source, x * source, dest);
    assert source * dest == dest * source;
  }

  function SampledRow(row: seq<Pixel>, dest: nat): (sampled: seq<Pixel>)
    requires |row| > 0
    ensures |sampled| == dest
  {
    seq(dest, x requires 0 <= x < dest => SourceIndex(x, |row|, dest); row[x * |row| / dest])
  }

  /** Nearest-neighbour sampling. */
  function Sampled(p: Picture, size: Size): (sampled: Picture)
    requires p.Valid() && size.Valid()
    ensures sampled.Valid() && sampled.size == size
  {
    Picture(size, seq(size.height, y requires 0 <= y < size.height =>
      SourceIndex(y, p.size.height, size.height);
      SampledRow(p.rows[y * p.size.height / size.height], size.width)))
  }

  lemma RowSample(row: seq<Pixel>, dest: nat, x: nat, from: nat)
    requires |row| > 0 && x < dest && from == x * |row| / dest
    ensures from < |row| && SampledRow(row, dest)[x] == row[from]
  {
    SourceIndex(x, |row|, dest);
  }

  lemma PictureSample(p: Picture, size: Size, y: nat, from: nat)
    requires p.Valid() && size.Valid() && y < size.height && from == y * p.size.height / size.height
    ensures from < p.size.height && Sampled(p, size).rows[y] == SampledRow(p.rows[from], size.width)
  {
    SourceIndex(y, p.size.height, size.height);
  }

  lemma SampleShows(p: Picture, size: Size, y: int, x: int, fromY: int, fromX: int)
    requires p.Valid() && size.Valid() && Sampled(p, size).Shows(y, x)
    requires fromY == y * p.size.height / size.height && fromX == x * p.size.width / size.width
    ensures p.Shows(fromY, fromX)
  {
    PictureSample(p, size, y, fromY);
    RowSample(p.rows[fromY], size.width, x, fromX);
  }

  /** Every visible pixel keeps its offset from the hotspot inside the layout. */
  ghost predicate Fits(p: Picture, layout: Size)
    requires p.Valid()
  {
    forall y, x :: p.Shows(y, x) ==> InLayout(p, layout, y, x)
  }

  predicate InLayout(p: Picture, layout: Size, y: int, x: int) {
    0 <= x + layout.hotH - p.size.hotH < layout.width && 0 <= y + layout.hotV - p.size.hotV < layout.height
  }

  /** What a picture shows at an offset from its hotspot. */
  function Look(p: Picture, down: int, across: int): Option<Pixel>
    requires p.Valid()
  {
    var y, x := p.size.hotV + down, p.size.hotH + across;
    if p.Shows(y, x) then Some(p.rows[y][x]) else None
  }

  ghost predicate SameLook(p: Picture, q: Picture)
    requires p.Valid() && q.Valid()
  {
    forall down, across :: Look(p, down, across) == Look(q, down, across)
  }

  /** Visible samples of an observed shape stay within the room it was given. */
  lemma SampleInRoom(p: Picture, s: Shape, scale: real, t: Size, y: int, x: int)
    requires p.Valid() && Bounds(s, p) && Scaled(p.size, scale) == Some(t) && Sampled(p, t).Shows(y, x)
    ensures t.hotH - x <= Needed(s, scale).left && x - t.hotH <= Needed(s, scale).right
    ensures t.hotV - y <= Needed(s, scale).top && y - t.hotV <= Needed(s, scale).bottom
  {
    var sy, sx := y * p.size.height / t.height, x * p.size.width / t.width;
    SampleShows(p, t, y, x, sy, sx);
    assert Seen(p, p.size.height, 0, sy, sx);
    SampleDuality(x, s.left, s.right, p.size.width, t.width);
    SampleDuality(y, s.top, s.bottom, p.size.height, t.height);
  }

  /** A layout with room for a shape takes every picture of that shape. */
  lemma LayoutFits(p: Picture, s: Shape, scale: real, t: Size, layout: Size)
    requires p.Valid() && Bounds(s, p) && Scaled(p.size, scale) == Some(t) && Encloses(layout, Needed(s, scale))
    ensures Fits(Sampled(p, t), layout)
  {
    var sampled := Sampled(p, t);
    forall y, x | sampled.Shows(y, x) ensures InLayout(sampled, layout, y, x) {
      SampleInRoom(p, s, scale, t, y, x);
    }
  }

  lemma BlankFits(p: Picture, t: Size, layout: Size)
    requires p.Valid() && t.Valid() && Blank(p)
    ensures Fits(Sampled(p, t), layout)
  {
    forall y, x ensures !Sampled(p, t).Shows(y, x) {
      if Sampled(p, t).Shows(y, x) {
        SampleShows(p, t, y, x, y * p.size.height / t.height, x * p.size.width / t.width);
      }
    }
  }

  method Sample(p: Picture, size: Size) returns (sampled: Picture)
    requires p.Valid() && size.Valid()
    ensures sampled == Sampled(p, size)
  {
    var rows: seq<seq<Pixel>> := [];
    for y := 0 to size.height
      invariant |rows| == y
      invariant forall k :: 0 <= k < y ==> rows[k] == Sampled(p, size).rows[k]
    {
      SourceIndex(y, p.size.height, size.height);
      var from := p.rows[y * p.size.height / size.height];
      var row: seq<Pixel> := [];
      for x := 0 to size.width
        invariant |row| == x
        invariant forall k :: 0 <= k < x ==> row[k] == SampledRow(from, size.width)[k]
      {
        SourceIndex(x, p.size.width, size.width);
        row := row + [from[x * p.size.width / size.width]];
      }
      rows := rows + [row];
    }
    sampled := Picture(size, rows);
  }

  /** What repacking has written once the rows above `n`, and `c` columns of row `n`, are moved. */
  ghost predicate Moved(rows: seq<seq<Pixel>>, p: Picture, layout: Size, n: nat, c: nat)
    requires p.Valid()
  {
    && |rows| == layout.height && (forall y :: 0 <= y < |rows| ==> |rows[y]| == layout.width)
    && forall dy, dx :: 0 <= dy < layout.height && 0 <= dx < layout.width ==>
         rows[dy][dx] == MovedPixel(p, layout, n, c, dy, dx)
  }

  function MovedPixel(p: Picture, layout: Size, n: nat, c: nat, dy: int, dx: int): Pixel
    requires p.Valid()
  {
    var y, x := dy + p.size.hotV - layout.hotV, dx + p.size.hotH - layout.hotH;
    if Seen(p, n, c, y, x) then p.rows[y][x] else CLEAR
  }

  lemma MoveOne(rows: seq<seq<Pixel>>, p: Picture, layout: Size, n: nat, c: nat)
    requires p.Valid() && n < p.size.height && c < p.size.width && Moved(rows, p, layout, n, c)
    ensures p.rows[n][c].a == 0 ==> Moved(rows, p, layout, n, c + 1)
    ensures var dy, dx := n + layout.hotV - p.size.hotV, c + layout.hotH - p.size.hotH;
            (p.rows[n][c].a != 0 && 0 <= dy < layout.height && 0 <= dx < layout.width) ==>
              Moved(rows[dy := rows[dy][dx := p.rows[n][c]]], p, layout, n, c + 1)
  {
    var dy, dx := n + layout.hotV - p.size.hotV, c + layout.hotH - p.size.hotH;
    forall y, x ensures MovedPixel(p, layout, n, c + 1, y, x)
                     == if p.rows[n][c].a != 0 && y == dy
                         && x == dx then p.rows[n][c] else MovedPixel(p, layout, n, c, y, x) {
    }
  }

  lemma MoveNextRow(rows: seq<seq<Pixel>>, p: Picture, layout: Size, n: nat)
    requires p.Valid() && n < p.size.height && Moved(rows, p, layout, n, p.size.width)
    ensures Moved(rows, p, layout, n + 1, 0)
  {
    forall y, x ensures MovedPixel(p, layout, n + 1, 0, y, x) == MovedPixel(p, layout, n, p.size.width, y, x) {
    }
  }

  lemma MovedLooksSame(rows: seq<seq<Pixel>>, p: Picture, layout: Size)
    requires p.Valid() && layout.Valid() && Fits(p, layout) && Moved(rows, p, layout, p.size.height, 0)
    ensures Picture(layout, rows).Valid() && SameLook(Picture(layout, rows), p)
  {
    var q := Picture(layout, rows);
    forall down, across ensures Look(q, down, across) == Look(p, down, across) {
      var dy, dx := layout.hotV + down, layout.hotH + across;
      if 0 <= dy < layout.height && 0 <= dx < layout.width {
        assert rows[dy][dx] == MovedPixel(p, layout, p.size.height, 0, dy, dx);
      }
    }
  }

  /** Moves every visible pixel with its hotspot, or declines if one falls outside. */
  method Repack(p: Picture, layout: Size) returns (packed: Option<Picture>)
    requires p.Valid() && layout.Valid()
    ensures packed.Some? <==> Fits(p, layout)
    ensures packed.Some? ==> packed.value.Valid() && packed.value.size == layout && SameLook(packed.value, p)
  {
    var rows := seq(layout.height, y => seq(layout.width, x => CLEAR));
    for y := 0 to p.size.height
      invariant Moved(rows, p, layout, y, 0)
      invariant forall sy, sx :: Seen(p, y, 0, sy, sx) ==> InLayout(p, layout, sy, sx)
    {
      for x := 0 to p.size.width
        invariant Moved(rows, p, layout, y, x)
        invariant forall sy, sx :: Seen(p, y, x, sy, sx) ==> InLayout(p, layout, sy, sx)
      {
        MoveOne(rows, p, layout, y, x);
        if p.rows[y][x].a == 0 {
          continue;
        }
        assert p.Shows(y, x);
        var dx, dy := x + layout.hotH - p.size.hotH, y + layout.hotV - p.size.hotV;
        if dx < 0 || dy < 0 || dx >= layout.width || dy >= layout.height {
          return None;
        }
        rows := rows[dy := rows[dy][dx := p.rows[y][x]]];
      }
      MoveNextRow(rows, p, layout, y);
    }
    assert forall y, x :: p.Shows(y, x) ==> Seen(p, p.size.height, 0, y, x);
    MovedLooksSame(rows, p, layout);
    packed := Some(Picture(layout, rows));
  }

  // ---------- The class and the pipeline ----------

  /** A picture whose exact bounds are registered, or that shows nothing. */
  ghost predicate Known(shapes: seq<Shape>, p: Picture)
    requires p.Valid()
  {
    Blank(p) || exists s :: s in shapes && Bounds(s, p)
  }

  /** Known pictures change nothing; a new one adds its exact bounds, while there is space. */
  ghost predicate Registered(before: seq<Shape>, p: Picture, now: seq<Shape>)
    requires p.Valid()
  {
    if Known(before, p) || |before| == MAX_SHAPES then now == before
    else exists s :: Bounds(s, p) && now == before + [s]
  }

  lemma KnownAfter(before: seq<Shape>, p: Picture, now: seq<Shape>)
    requires p.Valid() && Registered(before, p, now)
    ensures before <= now && (Known(now, p) || |now| == MAX_SHAPES)
    ensures forall q: Picture :: q.Valid() && Known(before, q) ==> Known(now, q)
  {
    if !Known(before, p) && |before| != MAX_SHAPES {
      var s :| Bounds(s, p) && now == before + [s];
      assert s == now[|before|] && s in now;
    }
  }

  /** Some square has room for every known shape. */
  predicate HasSquare(shapes: seq<Shape>, scale: real)
    requires forall k :: 0 <= k < |shapes| ==> shapes[k].size.Valid()
  {
    shapes != [] && Square(RoomFor(shapes, scale)).Some?
  }

  /** The layout of a picture shown at a scale: the common square if it is known and there is one. */
  ghost function Layout(shapes: seq<Shape>, p: Picture, scale: real, t: Size): Size
    requires p.Valid() && forall k :: 0 <= k < |shapes| ==> shapes[k].size.Valid()
  {
    if Known(shapes, p) && HasSquare(shapes, scale) then Square(RoomFor(shapes, scale)).value else t
  }

  class CursorLayouts {
    var shapes: seq<Shape>

    /** Known shapes are distinct and fit a native cursor's own size. */
    ghost predicate Valid()
      reads this
    {
      && |shapes| <= MAX_SHAPES
      && (forall k :: 0 <= k < |shapes| ==> shapes[k].size.Valid())
      && forall j, k :: 0 <= j < k < |shapes| ==> shapes[j] != shapes[k]
    }

    constructor ()
      ensures Valid() && shapes == []
    {
      shapes := [];
    }

    /** Registers the exact bounds of what the picture shows. */
    method Observe(p: Picture) returns (known: bool)
      requires Valid() && p.Valid()
      modifies this
      ensures Valid()
      ensures Registered(old(shapes), p, shapes) && (known <==> Known(shapes, p))
      ensures !known ==> |shapes| == MAX_SHAPES
    {
      var shape := HullOf(p);
      HullWhole(shape, p);
      forall s | Bounds(s, p) ensures s == shape && !Blank(p) {
        HullWhole(s, p);
        BoundsAreUnique(s, shape, p);
      }
      assert shape.right != 0 ==> Bounds(shape, p);
      if shape.right == 0 || shape in shapes {
        return true;
      }
      if |shapes| == MAX_SHAPES {
        return false;
      }
      shapes := shapes + [shape];
      assert shape == shapes[|shapes| - 1];
      assert shape in shapes;
      known := true;
    }

    /** The least square, a power of two from 32 to 128, with room for every known shape. */
    method Plan(scale: real) returns (layout: Option<Size>)
      requires Valid()
      ensures layout == if shapes == [] || scale <= 0.0 then None else Square(RoomFor(shapes, scale))
      ensures layout.Some? ==> forall s :: s in shapes ==> Encloses(layout.value, Needed(s, scale))
      ensures layout.Some? ==> layout.value.Valid()
    {
      if shapes == [] || scale <= 0.0 {
        return None;
      }
      var room := NO_ROOM;
      for k := 0 to |shapes|
        invariant room == RoomFor(shapes[..k], scale)
      {
        assert shapes[..k + 1][..k] == shapes[..k];
        room := room.Union(Needed(shapes[k], scale));
      }
      assert shapes[..|shapes|] == shapes;
      RoomIsLeast(shapes, scale, room);
      SquareEncloses(room);
      layout := Square(room);
    }

    /** The cursor image shown at a scale: sampled, and repacked when there is a layout. It looks
        the same around its hotspot either way. */
    method Native(p: Picture, scale: real, t: Size) returns (shown: Picture)
      requires Valid() && p.Valid() && Scaled(p.size, scale) == Some(t)
      modifies this
      ensures Valid() && Registered(old(shapes), p, shapes)
      ensures shown.Valid() && shown.size == Layout(shapes, p, scale, t) && SameLook(shown, Sampled(p, t))
    {
      var known := Observe(p);
      var layout := None;
      if known {
        layout := Plan(scale);
      }
      var scaled := Sample(p, t);
      shown := scaled;
      if layout.Some? {
        KnownFits(shapes, p, scale, t, layout.value);
        var packed := Repack(scaled, layout.value);
        if packed.Some? {
          shown := packed.value;
        }
      }
    }
  }

  lemma KnownFits(shapes: seq<Shape>, p: Picture, scale: real, t: Size, layout: Size)
    requires p.Valid() && Known(shapes, p) && Scaled(p.size, scale) == Some(t)
    requires forall s :: s in shapes ==> s.size.Valid() && Encloses(layout, Needed(s, scale))
    ensures Fits(Sampled(p, t), layout)
  {
    if Blank(p) {
      BlankFits(p, t, layout);
    } else {
      var s :| s in shapes && Bounds(s, p);
      LayoutFits(p, s, scale, t, layout);
    }
  }

  // ---------- Switching ----------

  /** Pictures that are known and have a native size at the scale. */
  ghost predicate Ready(shapes: seq<Shape>, pictures: seq<Picture>, scale: real) {
    forall k :: 0 <= k < |pictures| ==>
      pictures[k].Valid() && Known(shapes, pictures[k]) && Scaled(pictures[k].size, scale).Some?
  }

  /** The images shown, one by one: all of the common square's size and hotspot if there is one, else
      each of its own; and each looks like its own picture. */
  ghost predicate ShownAs(shapes: seq<Shape>, p: Picture, scale: real, image: Picture)
    requires forall k :: 0 <= k < |shapes| ==> shapes[k].size.Valid()
  {
    && p.Valid() && image.Valid() && Scaled(p.size, scale).Some?
    && var t := Scaled(p.size, scale).value;
       && image.size == (if HasSquare(shapes, scale) then Square(RoomFor(shapes, scale)).value else t)
       && SameLook(image, Sampled(p, t))
  }

  method ShowKnown(layouts: CursorLayouts, p: Picture, scale: real) returns (image: Picture)
    requires layouts.Valid() && p.Valid() && Known(layouts.shapes, p) && Scaled(p.size, scale).Some?
    modifies layouts
    ensures layouts.Valid() && layouts.shapes == old(layouts.shapes) && ShownAs(layouts.shapes, p, scale, image)
  {
    image := layouts.Native(p, scale, Scaled(p.size, scale).value);
  }

  /** Switching among known pictures, in any order, registers nothing, and changes neither the size nor
      the hotspot of what is shown exactly as far as the known shapes have a common square. */
  method SwitchAmongKnown(layouts: CursorLayouts, pictures: seq<Picture>, scale: real) returns (shown: seq<Picture>)
    requires layouts.Valid() && Ready(layouts.shapes, pictures, scale)
    modifies layouts
    ensures layouts.Valid() && layouts.shapes == old(layouts.shapes) && |shown| == |pictures|
    ensures forall k :: 0 <= k < |shown| ==> ShownAs(layouts.shapes, pictures[k], scale, shown[k])
    ensures HasSquare(layouts.shapes, scale) ==> forall j, k :: 0 <= j < k < |shown| ==> shown[j].size == shown[k].size
  {
    shown := [];
    for n := 0 to |pictures|
      invariant layouts.Valid() && layouts.shapes == old(layouts.shapes) && |shown| == n
      invariant forall k :: 0 <= k < n ==> ShownAs(layouts.shapes, pictures[k], scale, shown[k])
    {
      var image := ShowKnown(layouts, pictures[n], scale);
      shown := shown + [image];
    }
  }

  lemma ReadyMore(before: seq<Shape>, now: seq<Shape>, pictures: seq<Picture>, p: Picture, scale: real)
    requires p.Valid() && Scaled(p.size, scale).Some? && Registered(before, p, now)
    requires |before| < MAX_SHAPES ==> Ready(before, pictures, scale)
    ensures |now| < MAX_SHAPES ==> Ready(now, pictures + [p], scale)
  {
    KnownAfter(before, p, now);
  }

  /** Pictures once shown stay known, in any order, until 64 shapes are. */
  method ShowAll(pictures: seq<Picture>, scale: real) returns (layouts: CursorLayouts)
    requires forall k :: 0 <= k < |pictures| ==> pictures[k].Valid() && Scaled(pictures[k].size, scale).Some?
    ensures fresh(layouts) && layouts.Valid()
    ensures |layouts.shapes| < MAX_SHAPES ==> Ready(layouts.shapes, pictures, scale)
  {
    layouts := new CursorLayouts();
    for n := 0 to |pictures|
      invariant fresh(layouts) && layouts.Valid()
      invariant |layouts.shapes| < MAX_SHAPES ==> Ready(layouts.shapes, pictures[..n], scale)
    {
      ghost var before := layouts.shapes;
      var _ := layouts.Native(pictures[n], scale, Scaled(pictures[n].size, scale).value);
      ReadyMore(before, layouts.shapes, pictures[..n], pictures[n], scale);
      assert pictures[..n + 1] == pictures[..n] + [pictures[n]];
    }
    assert pictures[..|pictures|] == pictures;
  }

  method HullOf(p: Picture) returns (shape: Shape)
    requires p.Valid()
    ensures Hull(shape, p, p.size.height, 0)
  {
    shape := Shape(p.size, p.size.width, p.size.height, 0, 0);
    for y := 0 to p.size.height
      invariant Hull(shape, p, y, 0)
    {
      for x := 0 to p.size.width
        invariant Hull(shape, p, y, x)
      {
        HullStep(shape, p, y, x, x + 1);
        if p.rows[y][x].a != 0 {
          shape := Widened(shape, y, x);
        }
      }
      HullNextRow(shape, p, y, y + 1);
    }
  }
}
