/** An indexed screen plus a small composed cursor patch (indexed_frame.rs). The
    presenter decodes the screen and lays the patch over it. */
module IndexedFrames {
  import opened Base
  import opened CursorDrawing
  import opened CursorBackups

  datatype PackedScreen = PackedScreen(stride: nat, width: nat, height: nat, depth: nat,
                                       pixels: seq<byte>, palette: seq<nat>)
  {
    predicate Valid() {
      depth == 8 && width <= stride && |pixels| == stride * height
    }
  }

  datatype CursorPatch = CursorPatch(rect: Rect, pixels: seq<Pixel>)

  function FromArgb(argb: nat): Pixel {
    Pixel((argb / 65536 % 256) as byte, (argb / 256 % 256) as byte, (argb % 256) as byte,
          (argb / 16777216 % 256) as byte)
  }

  lemma InRow(screen: PackedScreen, x: nat, y: nat)
    requires screen.Valid() && x < screen.width && y < screen.height
    ensures 0 <= y * screen.stride + x < |screen.pixels|
  {
    RowsFit(y, screen.height, screen.stride);
    assert 0 <= y * screen.stride;
    assert screen.height * screen.stride == screen.stride * screen.height;
  }

  function Palette(screen: PackedScreen): (palette: seq<Pixel>)
    ensures |palette| == |screen.palette|
  {
    seq(|screen.palette|, i requires 0 <= i < |screen.palette| => FromArgb(screen.palette[i]))
  }

  function DecodedPixel(screen: PackedScreen, x: nat, y: nat): Pixel
    requires screen.Valid() && |screen.palette| == 256 && x < screen.width && y < screen.height
  {
    InRow(screen, x, y);
    FromArgb(screen.palette[screen.pixels[y * screen.stride + x] as nat])
  }

  /** The whole screen through the palette; row padding beyond the width is not shown. */
  function Decoded(screen: PackedScreen): (frame: seq<Pixel>)
    requires screen.Valid() && |screen.palette| == 256
    ensures |frame| == screen.width * screen.height
  {
    seq(screen.width * screen.height, i requires 0 <= i < screen.width * screen.height =>
      assert i < screen.height * screen.width;
      CellBounds(i, screen.height, screen.width);
      DecodedPixel(screen, i % screen.width, i / screen.width))
  }

  ghost predicate PatchFits(screen: PackedScreen, cursor: Option<CursorPatch>) {
    cursor.Some? ==>
      && cursor.value.rect.Within(screen.width, screen.height)
      && |cursor.value.pixels| == cursor.value.rect.Rows() * cursor.value.rect.Columns()
  }

  /** What the presenter shows. */
  function Shown(screen: PackedScreen, cursor: Option<CursorPatch>): seq<Pixel>
    requires screen.Valid() && |screen.palette| == 256 && PatchFits(screen, cursor)
  {
    match cursor
    case None => Decoded(screen)
    case Some(patch) => Patched(Decoded(screen), screen.width, screen.height, patch.rect, patch.pixels)
  }

  lemma SamePixel(rule: Rule, cursor: Cursor, mouse: Point, local: Point, rect: Rect, row: nat, col: nat, under: Pixel)
    requires local == Point(mouse.v - rect.top, mouse.h - rect.left)
    ensures DrawnPixel(rule, cursor, local, col, row, under)
         == DrawnPixel(rule, cursor, mouse, rect.left + col, rect.top + row, under)
  {
  }

  /** Under the footprint, drawing on the cut patch is drawing on the frame. */
  lemma PatchPixel(rule: Rule, frame: seq<Pixel>, width: nat, height: nat, cursor: Cursor, mouse: Point, rect: Rect,
                   x: nat, y: nat)
    requires |frame| == width * height && rect.Within(width, height) && rect.Covers(x, y)
    ensures var local := Point(mouse.v - rect.top, mouse.h - rect.left);
            var j := (y - rect.top) * rect.Columns() + (x - rect.left);
            && 0 <= y * width + x < |frame| && 0 <= j < rect.Rows() * rect.Columns()
            && Draw(rule, Patch(frame, width, height, rect), rect.Columns(), cursor, local)[j]
            == DrawnPixel(rule, cursor, mouse, x, y, frame[y * width + x])
  {
    var row, col := y - rect.top, x - rect.left;
    PatchHolds(frame, width, height, rect, x, y);
    Cell(row, col, rect.Columns());
    SamePixel(rule, cursor, mouse, Point(mouse.v - rect.top, mouse.h - rect.left), rect, row, col,
              frame[y * width + x]);
  }

  lemma Overwritten(frame: seq<Pixel>, width: nat, rect: Rect, patch: seq<Pixel>, i: nat, x: nat, y: nat)
    requires i < |frame| && width > 0 && |patch| == rect.Rows() * rect.Columns()
    requires x == i % width && y == i / width && rect.Covers(x, y)
    ensures var j := (y - rect.top) * rect.Columns() + (x - rect.left);
            0 <= j < |patch| && PatchedPixel(frame, width, rect, patch, i) == patch[j]
    ensures i == y * width + x
  {
    RowsFit(y - rect.top, rect.Rows(), rect.Columns());
    assert 0 <= (y - rect.top) * rect.Columns();
  }

  lemma PatchedIsDrawn(rule: Rule, frame: seq<Pixel>, width: nat, height: nat, cursor: Cursor, mouse: Point, rect: Rect,
                       drawn: seq<Pixel>, i: nat, x: nat, y: nat)
    requires |frame| == width * height && i < |frame| && 0 < width && x == i % width && y == i / width < height
    requires rect == Footprint(cursor, mouse, width, height)
    requires drawn == Draw(rule, Patch(frame, width, height, rect), rect.Columns(), cursor,
                           Point(mouse.v - rect.top, mouse.h - rect.left))
    ensures PatchedPixel(frame, width, rect, drawn, i) == DrawnPixel(rule, cursor, mouse, x, y, frame[i])
  {
    if rect.Covers(x, y) {
      PatchPixel(rule, frame, width, height, cursor, mouse, rect, x, y);
      Overwritten(frame, width, rect, drawn, i, x, y);
    }
  }

  /** Drawing commutes with cutting out the clipped footprint: drawing the cursor on the cut
      patch, with the mouse moved by the patch origin, and pasting the patch back equals
      drawing on the whole frame. */
  lemma PatchCommutesWithDrawing(rule: Rule, frame: seq<Pixel>, width: nat, height: nat, cursor: Cursor, mouse: Point)
    requires |frame| == width * height
    requires !Footprint(cursor, mouse, width, height).Empty()
    ensures var rect := Footprint(cursor, mouse, width, height);
            var local := Point(mouse.v - rect.top, mouse.h - rect.left);
            Patched(frame, width, height, rect,
                    Draw(rule, Patch(frame, width, height, rect), rect.Columns(), cursor, local))
              == Draw(rule, frame, width, cursor, mouse)
  {
    var rect := Footprint(cursor, mouse, width, height);
    var local := Point(mouse.v - rect.top, mouse.h - rect.left);
    var drawn := Draw(rule, Patch(frame, width, height, rect), rect.Columns(), cursor, local);
    var left, right := Patched(frame, width, height, rect, drawn), Draw(rule, frame, width, cursor, mouse);
    forall i | 0 <= i < |frame| ensures left[i] == right[i] {
      assert i < height * width;
      CellBounds(i, height, width);
      PatchedIsDrawn(rule, frame, width, height, cursor, mouse, rect, drawn, i, i % width, i / width);
    }
  }

  lemma DecodedAt(screen: PackedScreen, x: nat, y: nat)
    requires screen.Valid() && |screen.palette| == 256 && x < screen.width && y < screen.height
    ensures 0 <= y * screen.width + x < |Decoded(screen)|
    ensures Decoded(screen)[y * screen.width + x] == DecodedPixel(screen, x, y)
  {
    Cell(y, x, screen.width);
    RowsFit(y, screen.height, screen.width);
    assert 0 <= y * screen.width;
  }

  /** A pixel of the frame has the colour its byte names: alpha, red, green and blue from the highest byte of
      the palette word down. */
  lemma PaletteColour(screen: PackedScreen, x: nat, y: nat, word: nat)
    requires screen.Valid() && |screen.palette| == 256 && x < screen.width && y < screen.height
    requires 0 <= y * screen.stride + x < |screen.pixels| && word < 0x1_0000_0000
    requires word == screen.palette[screen.pixels[y * screen.stride + x] as nat]
    ensures 0 <= y * screen.width + x < |Decoded(screen)|
    ensures var p := Decoded(screen)[y * screen.width + x];
            word == p.a as nat * 0x100_0000 + p.r as nat * 0x1_0000 + p.g as nat * 0x100 + p.b as nat
  {
    DecodedAt(screen, x, y);
    FourBytes(word);
  }

  lemma FourBytes(word: nat)
    requires word < 0x1_0000_0000
    ensures var p := FromArgb(word);
            word == p.a as nat * 0x100_0000 + p.r as nat * 0x1_0000 + p.g as nat * 0x100 + p.b as nat
  {
  }

  /** A pixel of the cut patch. */
  lemma CutPixel(screen: PackedScreen, rect: Rect, row: nat, col: nat)
    requires screen.Valid() && |screen.palette| == 256
    requires rect.Within(screen.width, screen.height) && row < rect.Rows() && col < rect.Columns()
    ensures var j := row * rect.Columns() + col;
            0 <= j < rect.Rows() * rect.Columns()
            && Patch(Decoded(screen), screen.width, screen.height, rect)[j]
               == DecodedPixel(screen, rect.left + col, rect.top + row)
  {
    PatchHolds(Decoded(screen), screen.width, screen.height, rect, rect.left + col, rect.top + row);
    DecodedAt(screen, rect.left + col, rect.top + row);
  }

  class IndexedFrame {
    var screen: PackedScreen
    var palette: seq<Pixel>
    var cursor: Option<CursorPatch>

    constructor (screen: PackedScreen)
      ensures this.screen == screen && palette == [] && cursor == None
    {
      this.screen, palette, cursor := screen, [], None;
    }

    method BuildPalette()
      requires |screen.palette| == 256
      modifies this`palette
      ensures palette == Palette(screen)
    {
      palette := [];
      for n := 0 to 256
        invariant palette == Palette(screen)[..n]
      {
        palette := palette + [FromArgb(screen.palette[n])];
      }
      assert palette == Palette(screen);
    }

    /** When it succeeds, the patched screen is the whole decoded screen with the cursor drawn
        on it, for every mouse position, hotspot, cursor size and drawing rule. It refuses only
        a malformed screen, a footprint over 4096 pixels or a local mouse outside 16 bits. */
    method Prepare(rule: Rule, pointer: Option<Cursor>, mouse: Point) returns (ok: bool)
      requires |screen.palette| == 256
      modifies this`palette, this`cursor
      ensures !screen.Valid() ==> !ok && palette == old(palette) && cursor == old(cursor)
      ensures screen.Valid() ==> palette == Palette(screen) && PatchFits(screen, cursor)
      ensures screen.Valid() && ok ==>
        Shown(screen, cursor) ==
          if pointer.None? then Decoded(screen) else Draw(rule, Decoded(screen), screen.width, pointer.value, mouse)
      ensures screen.Valid() && !ok ==> cursor == None && pointer.Some?
      ensures screen.Valid() && pointer.Some? ==>
        var rect := Footprint(pointer.value, mouse, screen.width, screen.height);
        ok <==> rect.Empty()
                || (rect.Columns() * rect.Rows() <= 4096
                    && -32768 <= mouse.v - rect.top <= 32767 && -32768 <= mouse.h - rect.left <= 32767)
    {
      if screen.depth != 8 || screen.stride < screen.width || |screen.pixels| != screen.stride * screen.height {
        return false;
      }
      BuildPalette();
      cursor := None;
      if pointer.None? {
        return true;
      }
      var width, height := screen.width, screen.height;
      var rect := Footprint(pointer.value, mouse, width, height);
      if rect.Empty() {
        EmptyFootprintDrawsNothing(rule, Decoded(screen), width, height, pointer.value, mouse);
        return true;
      }
      if rect.Columns() * rect.Rows() > 4096 {
        return false;
      }
      var local := Point(mouse.v - rect.top, mouse.h - rect.left);
      if !(-32768 <= local.v <= 32767) || !(-32768 <= local.h <= 32767) {
        return false;
      }
      var pixels := CutPatch(rect);
      PatchCommutesWithDrawing(rule, Decoded(screen), width, height, pointer.value, mouse);
      pixels := Draw(rule, pixels, rect.Columns(), pointer.value, local);
      cursor := Some(CursorPatch(rect, pixels));
      return true;
    }

    /** Looks up the rectangle's pixels one by one, straight from the packed rows. */
    method CutPatch(rect: Rect) returns (pixels: seq<Pixel>)
      requires screen.Valid() && |screen.palette| == 256 && palette == Palette(screen)
      requires rect.Within(screen.width, screen.height) && !rect.Empty()
      ensures pixels == Patch(Decoded(screen), screen.width, screen.height, rect)
    {
      ghost var whole := Patch(Decoded(screen), screen.width, screen.height, rect);
      pixels := [];
      for row := 0 to rect.Rows()
        invariant 0 <= row * rect.Columns() <= |whole|
        invariant pixels == whole[..row * rect.Columns()]
      {
        RowBounds(rect, screen.width, screen.height, row);
        var cut := CutRow(rect, row);
        pixels := pixels + cut;
      }
    }

    method CutRow(rect: Rect, row: nat) returns (pixels: seq<Pixel>)
      requires screen.Valid() && |screen.palette| == 256 && palette == Palette(screen)
      requires rect.Within(screen.width, screen.height) && row < rect.Rows()
      ensures var whole, at := Patch(Decoded(screen), screen.width, screen.height, rect), row * rect.Columns();
              0 <= at <= at + rect.Columns() <= |whole| && pixels == whole[at..at + rect.Columns()]
    {
      ghost var whole, at := Patch(Decoded(screen), screen.width, screen.height, rect), row * rect.Columns();
      RowBounds(rect, screen.width, screen.height, row);
      pixels := [];
      for col := 0 to rect.Columns()
        invariant pixels == whole[at..at + col]
      {
        var x, y := rect.left + col, rect.top + row;
        InRow(screen, x, y);
        CutPixel(screen, rect, row, col);
        pixels := pixels + [palette[screen.pixels[y * screen.stride + x] as nat]];
      }
    }
  }
}
