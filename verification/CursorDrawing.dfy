/** Drawing a guest cursor over a decoded frame (display.rs): a frame is a
    row-major sequence of RGBA pixels, and a drawing rule decides each pixel
    under the cursor from the cursor's own row and column. */
module CursorDrawing {
  import opened Base

  datatype Pixel = Pixel(r: byte, g: byte, b: byte, a: byte)

  /** A mouse position or hotspot: vertical first, as Macintosh points are. */
  datatype Point = Point(v: int, h: int)

  datatype Cursor =
    | Mono(data: seq<byte>, mask: seq<byte>, hot: Point)
    | Color(width: nat, height: nat, argb: seq<nat>, mask: seq<byte>, hot: Point)
  {
    function Columns(): nat { if Mono? then 16 else width }
    function Rows(): nat { if Mono? then 16 else height }
  }

  /** New colour of the pixel under (column, row) of the cursor. */
  type Rule = (Cursor, int, int, Pixel) -> Pixel

  /** Column and row of the cursor that lie over frame position (x, y). */
  function Column(cursor: Cursor, mouse: Point, x: int): int { x - (mouse.h - cursor.hot.h) }
  function Row(cursor: Cursor, mouse: Point, y: int): int { y - (mouse.v - cursor.hot.v) }

  function DrawnPixel(rule: Rule, cursor: Cursor, mouse: Point, x: int, y: int, under: Pixel): Pixel {
    var col, row := Column(cursor, mouse, x), Row(cursor, mouse, y);
    if 0 <= col < cursor.Columns() && 0 <= row < cursor.Rows() then rule(cursor, col, row, under) else under
  }

  /** The whole frame with the cursor drawn over it; positions off the frame are clipped. */
  function Draw(rule: Rule, frame: seq<Pixel>, width: nat, cursor: Cursor, mouse: Point): (drawn: seq<Pixel>)
    ensures |drawn| == |frame|
  {
    if width == 0 then frame else
    seq(|frame|, i requires 0 <= i < |frame| => DrawnPixel(rule, cursor, mouse, i % width, i / width, frame[i]))
  }

  /** Cell (row, col) of the cursor lies over the frame as many rows and columns from the mouse as it lies from
      the hotspot. */
  lemma CellIsDrawnAt(rule: Rule, frame: seq<Pixel>, width: nat, height: nat, cursor: Cursor, mouse: Point,
                      row: nat, col: nat, y: nat, x: nat)
    requires |frame| == height * width && y < height && x < width
    requires row < cursor.Rows() && col < cursor.Columns()
    requires y - mouse.v == row - cursor.hot.v && x - mouse.h == col - cursor.hot.h
    ensures 0 <= y * width + x < |frame|
    ensures Draw(rule, frame, width, cursor, mouse)[y * width + x] == rule(cursor, col, row, frame[y * width + x])
  {
    RowsFit(y, height, width);
    Cell(y, x, width);
  }

  /** A clipped cursor footprint: rows [top, bottom) and columns [left, right). */
  datatype Rect = Rect(left: nat, top: nat, right: nat, bottom: nat) {
    predicate Within(width: nat, height: nat) { left <= right <= width && top <= bottom <= height }
    predicate Empty() { left >= right || top >= bottom }
    predicate Covers(x: int, y: int) { left <= x < right && top <= y < bottom }
    function Columns(): nat { if left <= right then right - left else 0 }
    function Rows(): nat { if top <= bottom then bottom - top else 0 }
  }

  function Footprint(cursor: Cursor, mouse: Point, width: nat, height: nat): (r: Rect)
    ensures r.Within(width, height)
  {
    var x, y := mouse.h - cursor.hot.h, mouse.v - cursor.hot.v;
    Rect(Clamp(x, 0, width), Clamp(y, 0, height),
         Clamp(x + cursor.Columns(), 0, width), Clamp(y + cursor.Rows(), 0, height))
  }

  /** The footprint covers exactly the frame positions under the cursor's cells. */
  lemma FootprintIsExact(cursor: Cursor, mouse: Point, width: nat, height: nat, x: nat, y: nat)
    requires x < width && y < height
    ensures Footprint(cursor, mouse, width, height).Covers(x, y) <==>
            && mouse.h - cursor.hot.h <= x < mouse.h - cursor.hot.h + cursor.Columns()
            && mouse.v - cursor.hot.v <= y < mouse.v - cursor.hot.v + cursor.Rows()
  {
  }

  /** Two frames that agree at every position outside a rectangle. */
  ghost predicate SameOutside(f: seq<Pixel>, g: seq<Pixel>, width: nat, rect: Rect) {
    && |f| == |g|
    && forall i :: 0 <= i < |f| && width > 0 && !rect.Covers(i % width, i / width) ==> f[i] == g[i]
  }

  /** Whatever the rule, drawing a cursor changes nothing outside its clipped footprint. */
  lemma DrawStaysInFootprint(rule: Rule, frame: seq<Pixel>, width: nat, height: nat, cursor: Cursor, mouse: Point)
    requires |frame| == width * height
    ensures SameOutside(Draw(rule, frame, width, cursor, mouse), frame, width,
                        Footprint(cursor, mouse, width, height))
  {
    var rect := Footprint(cursor, mouse, width, height);
    forall i | 0 <= i < |frame| && width > 0 && !rect.Covers(i % width, i / width)
      ensures Draw(rule, frame, width, cursor, mouse)[i] == frame[i]
    {
      assert i < height * width;
      CellBounds(i, height, width);
    }
  }

  /** An empty clipped footprint means nothing is drawn. */
  lemma EmptyFootprintDrawsNothing(rule: Rule, frame: seq<Pixel>, width: nat, height: nat, cursor: Cursor, mouse: Point)
    requires |frame| == width * height
    requires Footprint(cursor, mouse, width, height).Empty()
    ensures Draw(rule, frame, width, cursor, mouse) == frame
  {
    DrawStaysInFootprint(rule, frame, width, height, cursor, mouse);
    var rect := Footprint(cursor, mouse, width, height);
    assert forall x, y :: !rect.Covers(x, y);
  }

  /** Bit `col` of a cursor row of two big-endian bytes, most significant bit first. */
  function Bit(plane: seq<byte>, row: int, col: int): bool {
    && 0 <= row < 16 && 0 <= col < 16 && 2 * row + 1 < |plane|
    && ((plane[2 * row] as nat * 256 + plane[2 * row + 1] as nat) / Pow2(15 - col)) % 2 == 1
  }

  /** The first columns of the two halves of a row are the highest bits of its bytes, the last the lowest. */
  lemma OuterBits(plane: seq<byte>, row: nat)
    requires row < 16 && 2 * row + 1 < |plane|
    ensures Bit(plane, row, 0) <==> plane[2 * row] >= 128
    ensures Bit(plane, row, 7) <==> plane[2 * row] as nat % 2 == 1
    ensures Bit(plane, row, 8) <==> plane[2 * row + 1] >= 128
    ensures Bit(plane, row, 15) <==> plane[2 * row + 1] as nat % 2 == 1
  {
    assert Pow2(3) == 8 && Pow2(5) == 2 * Pow2(4) && Pow2(7) == 2 * Pow2(6) && Pow2(8) == 256;
    assert Pow2(11) == 2 * Pow2(10) && Pow2(13) == 2 * Pow2(12) && Pow2(15) == 2 * Pow2(14) == 32768;
    var high, low := plane[2 * row] as nat, plane[2 * row + 1] as nat;
    OuterDigits(high, low);
  }

  lemma OuterDigits(high: nat, low: nat)
    requires high < 256 && low < 256
    ensures var word := high * 256 + low;
            && (word / 32768 % 2 == 1 <==> high >= 128) && word / 256 % 2 == high % 2
            && (word / 128 % 2 == 1 <==> low >= 128) && word / 1 % 2 == low % 2
  {
    var word := high * 256 + low;
    assert word / 256 == high && word / 128 == 2 * high + low / 128;
  }

  const BLACK_ARGB: nat := 0xFF00_0000

  /** The rule display.rs uses: a mask bit paints; a colour cursor's unmasked opaque
      black inverts the pixel underneath; everything else shows through. */
  function MacRule(cursor: Cursor, col: int, row: int, under: Pixel): Pixel {
    match cursor
    case Mono(data, mask, _) =>
      if !Bit(mask, row, col) then under
      else if Bit(data, row, col) then Pixel(0, 0, 0, 255)
      else Pixel(255, 255, 255, 255)
    case Color(width, _, argb, mask, _) =>
      var at := row * width + col;
      if !(0 <= at < |argb|) then under
      else if Bit(mask, row, col) then
        Pixel((argb[at] / 65536 % 256) as byte, (argb[at] / 256 % 256) as byte, (argb[at] % 256) as byte, 255)
      else if argb[at] == BLACK_ARGB then Pixel(255 - under.r, 255 - under.g, 255 - under.b, 255)
      else under
  }

  /** Pixel `i` once the cursor cells before (row, col) have been painted. */
  ghost function Expected(rule: Rule, was: seq<Pixel>, width: nat, cursor: Cursor, mouse: Point, row: int, col: int,
                          i: nat): Pixel
    requires i < |was| && width > 0
  {
    var r, c := Row(cursor, mouse, i / width), Column(cursor, mouse, i % width);
    if r < row || (r == row && c < col)
    then DrawnPixel(rule, cursor, mouse, i % width, i / width, was[i]) else was[i]
  }

  ghost predicate PaintedUpTo(rule: Rule, now: seq<Pixel>, was: seq<Pixel>, width: nat, cursor: Cursor, mouse: Point,
                              row: int, col: int)
  {
    && |now| == |was|
    && forall i :: 0 <= i < |was| && width > 0 ==> now[i] == Expected(rule, was, width, cursor, mouse, row, col, i)
  }

  lemma OnlyCell(i: nat, x: int, y: int, width: nat, height: nat)
    requires i < width * height
    ensures width > 0
    ensures (i % width == x && i / width == y) <==> (0 <= x < width && 0 <= y < height && i == y * width + x)
  {
    assert i < height * width;
    CellBounds(i, height, width);
    if 0 <= x < width {
      Cell(y, x, width);
    }
  }

  /** Passing one more cell changes what is expected of the pixel under it only. */
  lemma ExpectedStep(rule: Rule, was: seq<Pixel>, width: nat, height: nat, cursor: Cursor, mouse: Point,
                     row: nat, col: nat, x: int, y: int, i: nat)
    requires |was| == width * height && i < |was| && width > 0
    requires row < cursor.Rows() && col < cursor.Columns()
    requires x == mouse.h - cursor.hot.h + col && y == mouse.v - cursor.hot.v + row
    ensures Expected(rule, was, width, cursor, mouse, row, col + 1, i)
         == if 0 <= x < width && 0 <= y < height && i == y * width + x
            then rule(cursor, col, row, was[i]) else Expected(rule, was, width, cursor, mouse, row, col, i)
    ensures 0 <= x < width && 0 <= y < height && i == y * width + x ==>
              Expected(rule, was, width, cursor, mouse, row, col, i) == was[i]
  {
    OnlyCell(i, x, y, width, height);
  }

  lemma PaintCell(rule: Rule, now: seq<Pixel>, was: seq<Pixel>, width: nat, height: nat, cursor: Cursor, mouse: Point,
                  row: nat, col: nat)
    requires |was| == width * height
    requires row < cursor.Rows() && col < cursor.Columns()
    requires PaintedUpTo(rule, now, was, width, cursor, mouse, row, col)
    ensures var x, y := mouse.h - cursor.hot.h + col, mouse.v - cursor.hot.v + row;
            if 0 <= x < width && 0 <= y < height then
              && 0 <= y * width + x < |now|
              && PaintedUpTo(rule, now[y * width + x := rule(cursor, col, row, now[y * width + x])],
                             was, width, cursor, mouse, row, col + 1)
            else PaintedUpTo(rule, now, was, width, cursor, mouse, row, col + 1)
  {
    var x, y := mouse.h - cursor.hot.h + col, mouse.v - cursor.hot.v + row;
    var after := now;
    if 0 <= x < width && 0 <= y < height {
      RowsFit(y, height, width);
      var at := y * width + x;
      after := now[at := rule(cursor, col, row, now[at])];
    }
    forall i | 0 <= i < |was| && width > 0
      ensures after[i] == Expected(rule, was, width, cursor, mouse, row, col + 1, i)
    {
      ExpectedStep(rule, was, width, height, cursor, mouse, row, col, x, y, i);
      assert now[i] == Expected(rule, was, width, cursor, mouse, row, col, i);
    }
  }

  lemma PaintRow(rule: Rule, now: seq<Pixel>, was: seq<Pixel>, width: nat, cursor: Cursor, mouse: Point, row: nat)
    requires PaintedUpTo(rule, now, was, width, cursor, mouse, row, cursor.Columns())
    ensures PaintedUpTo(rule, now, was, width, cursor, mouse, row + 1, 0)
  {
    forall i | 0 <= i < |was| && width > 0
      ensures now[i] == Expected(rule, was, width, cursor, mouse, row + 1, 0, i)
    {
      assert now[i] == Expected(rule, was, width, cursor, mouse, row, cursor.Columns(), i);
    }
  }

  /** The drawing loop: cursor rows and columns in order, off-frame cells skipped,
      every other cell painted in place. It is exactly `Draw` with the Macintosh rule. */
  method RenderCursor(pixels: array<Pixel>, width: nat, height: nat, cursor: Cursor, mouse: Point)
    requires pixels.Length == width * height
    modifies pixels
    ensures pixels[..] == Draw(MacRule, old(pixels[..]), width, cursor, mouse)
  {
    var cx, cy := mouse.h - cursor.hot.h, mouse.v - cursor.hot.v;
    ghost var was := pixels[..];
    var row := 0;
    while row < cursor.Rows()
      invariant 0 <= row <= cursor.Rows()
      invariant PaintedUpTo(MacRule, pixels[..], was, width, cursor, mouse, row, 0)
    {
      var col := 0;
      while col < cursor.Columns()
        invariant 0 <= col <= cursor.Columns()
        invariant PaintedUpTo(MacRule, pixels[..], was, width, cursor, mouse, row, col)
      {
        var gx, gy := cx + col, cy + row;
        ghost var now := pixels[..];
        PaintCell(MacRule, now, was, width, height, cursor, mouse, row, col);
        if !(gx < 0 || gy < 0 || gx >= width || gy >= height) {
          var at := gy * width + gx;
          pixels[at] := MacRule(cursor, col, row, pixels[at]);
          assert pixels[..] == now[at := MacRule(cursor, col, row, now[at])];
        }
        col := col + 1;
      }
      PaintRow(MacRule, pixels[..], was, width, cursor, mouse, row);
      row := row + 1;
    }
    assert width == 0 ==> pixels.Length == 0;
  }
}
