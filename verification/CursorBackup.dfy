/** The pixels a monochrome cursor temporarily replaces in the retained frame
    (emulator.rs, `CursorBackup`), so that moving the cursor needs no full copy. */
module CursorBackups {
  import opened Base
  import opened CursorDrawing

  lemma InsideFrame(rect: Rect, width: nat, height: nat, row: nat, col: nat)
    requires rect.Within(width, height)
    requires row < rect.Rows() && col < rect.Columns()
    ensures 0 <= (rect.top + row) * width + rect.left + col < width * height
  {
    RowsFit(rect.top + row, height, width);
    assert 0 <= (rect.top + row) * width;
    assert height * width == width * height;
  }

  /** The rectangle's pixels, row by row. */
  function Patch(frame: seq<Pixel>, width: nat, height: nat, rect: Rect): (patch: seq<Pixel>)
    requires |frame| == width * height && rect.Within(width, height)
    ensures |patch| == rect.Rows() * rect.Columns()
  {
    var cols := rect.Columns();
    seq(rect.Rows() * cols, j requires 0 <= j < rect.Rows() * cols =>
      CellBounds(j, rect.Rows(), cols);
      InsideFrame(rect, width, height, j / cols, j % cols);
      frame[(rect.top + j / cols) * width + rect.left + j % cols])
  }

  /** A frame with the rectangle's pixels overwritten from a patch. */
  function Patched(frame: seq<Pixel>, width: nat, height: nat, rect: Rect, patch: seq<Pixel>): (out: seq<Pixel>)
    requires |frame| == width * height && rect.Within(width, height)
    requires |patch| == rect.Rows() * rect.Columns()
    ensures |out| == |frame|
  {
    seq(|frame|, i requires 0 <= i < |frame| =>
      assert i < height * width;
      CellBounds(i, height, width);
      PatchedPixel(frame, width, rect, patch, i))
  }

  function PatchedPixel(frame: seq<Pixel>, width: nat, rect: Rect, patch: seq<Pixel>, i: nat): Pixel
    requires i < |frame| && width > 0
    requires |patch| == rect.Rows() * rect.Columns()
  {
    var x, y := i % width, i / width;
    if rect.Covers(x, y) then
      RowsFit(y - rect.top, rect.Rows(), rect.Columns());
      assert 0 <= (y - rect.top) * rect.Columns();
      patch[(y - rect.top) * rect.Columns() + (x - rect.left)]
    else frame[i]
  }

  /** A covered pixel's place in the patch. */
  lemma PatchHolds(frame: seq<Pixel>, width: nat, height: nat, rect: Rect, x: nat, y: nat)
    requires |frame| == width * height && rect.Within(width, height) && rect.Covers(x, y)
    ensures var j := (y - rect.top) * rect.Columns() + (x - rect.left);
            0 <= j < rect.Rows() * rect.Columns() && 0 <= y * width + x < |frame|
            && Patch(frame, width, height, rect)[j] == frame[y * width + x]
  {
    var row, col, cols := y - rect.top, x - rect.left, rect.Columns();
    RowsFit(row, rect.Rows(), cols);
    Cell(row, col, cols);
    InsideFrame(rect, width, height, row, col);
    assert 0 <= row * cols;
  }

  lemma UndonePixel(clean: seq<Pixel>, now: seq<Pixel>, width: nat, height: nat, rect: Rect, i: nat)
    requires |clean| == width * height && rect.Within(width, height) && i < |clean| && width > 0
    requires SameOutside(now, clean, width, rect)
    ensures |now| == |clean|
    ensures PatchedPixel(now, width, rect, Patch(clean, width, height, rect), i) == clean[i]
  {
    var x, y := i % width, i / width;
    assert i == y * width + x;
    if rect.Covers(x, y) {
      PatchHolds(clean, width, height, rect, x, y);
    }
  }

  /** Undoing: a frame that differs from the captured one only under the cursor is
      recovered exactly, whatever was drawn there. */
  lemma UndoRecoversFrame(clean: seq<Pixel>, now: seq<Pixel>, width: nat, height: nat, rect: Rect)
    requires |clean| == width * height && rect.Within(width, height)
    requires SameOutside(now, clean, width, rect)
    ensures Patched(now, width, height, rect, Patch(clean, width, height, rect)) == clean
  {
    var patch := Patch(clean, width, height, rect);
    forall i | 0 <= i < |clean|
      ensures Patched(now, width, height, rect, patch)[i] == clean[i]
    {
      assert i < height * width;
      CellBounds(i, height, width);
      UndonePixel(clean, now, width, height, rect, i);
    }
  }

  lemma RowBounds(rect: Rect, width: nat, height: nat, row: nat)
    requires rect.Within(width, height) && row < rect.Rows()
    ensures 0 <= row * rect.Columns() <= row * rect.Columns() + rect.Columns() <= rect.Rows() * rect.Columns()
    ensures (row + 1) * rect.Columns() == row * rect.Columns() + rect.Columns()
    ensures 0 <= (rect.top + row) * width + rect.left
    ensures (rect.top + row) * width + rect.left + rect.Columns() <= width * height
  {
    RowsFit(row, rect.Rows(), rect.Columns());
    RowsFit(rect.top + row, height, width);
    assert 0 <= (rect.top + row) * width;
    assert 0 <= row * rect.Columns();
    assert height * width == width * height;
  }

  lemma PatchRow(frame: seq<Pixel>, width: nat, height: nat, rect: Rect, row: nat)
    requires |frame| == width * height && rect.Within(width, height) && row < rect.Rows()
    ensures var patch, cols, start := Patch(frame, width, height, rect), rect.Columns(),
            (rect.top + row) * width + rect.left;
            && 0 <= row * cols <= row * cols + cols <= |patch|
            && 0 <= start <= start + cols <= |frame|
            && patch[..(row + 1) * cols] == patch[..row * cols] + frame[start..start + cols]
  {
    RowBounds(rect, width, height, row);
    var patch, cols, start := Patch(frame, width, height, rect), rect.Columns(), (rect.top + row) * width + rect.left;
    var base := row * cols;
    var saved, source := patch[base..base + cols], frame[start..start + cols];
    forall k | 0 <= k < cols
      ensures saved[k] == source[k]
    {
      Cell(row, k, cols);
    }
    assert saved == source;
  }

  /** `frame[start..start + |source|].copy_from_slice(source)` */
  method CopyFromSlice(frame: array<Pixel>, start: nat, source: seq<Pixel>)
    requires start + |source| <= frame.Length
    modifies frame
    ensures frame[..] == old(frame[..start]) + source + old(frame[start + |source|..])
  {
    forall i | 0 <= i < |source| {
      frame[start + i] := source[i];
    }
  }

  class CursorBackup {
    var rect: Option<Rect>
    var frameWidth: nat
    var frameHeight: nat
    var pixels: seq<Pixel>

    ghost predicate Valid()
      reads this
    {
      rect.Some? ==>
        && rect.value.Within(frameWidth, frameHeight)
        && |pixels| == rect.value.Rows() * rect.value.Columns()
    }

    constructor ()
      ensures Valid() && rect == None
    {
      rect, frameWidth, frameHeight, pixels := None, 0, 0, [];
    }

    method Discard()
      modifies this
      ensures rect == None && Valid()
    {
      rect, frameWidth, frameHeight := None, 0, 0;
    }

    /** The rows under the rectangle, one after the other. */
    method SavedRows(frame: array<Pixel>, width: nat, height: nat, r: Rect) returns (saved: seq<Pixel>)
      requires frame.Length == width * height && r.Within(width, height)
      ensures saved == Patch(frame[..], width, height, r)
    {
      var cols := r.Columns();
      ghost var whole := Patch(frame[..], width, height, r);
      saved := [];
      var row := 0;
      while row < r.Rows()
        invariant 0 <= row <= r.Rows()
        invariant row * cols <= |whole|
        invariant saved == whole[..row * cols]
      {
        PatchRow(frame[..], width, height, r, row);
        var start := (r.top + row) * width + r.left;
        saved := saved + frame[start..start + cols];
        row := row + 1;
      }
    }

    /** Saves the clipped 16 by 16 footprint. An off-frame cursor saves nothing and still succeeds. */
    method CaptureMono(frame: array<Pixel>, width: nat, height: nat, cursor: Cursor, mouse: Point) returns (ok: bool)
      modifies this
      ensures Valid()
      ensures ok <==> cursor.Mono? && frame.Length == width * height
      ensures !ok ==> rect == None
      ensures ok ==>
        var r := Footprint(cursor, mouse, width, height);
        if r.Empty() then rect == None
        else rect == Some(r) && frameWidth == width && frameHeight == height
             && pixels == Patch(frame[..], width, height, r)
    {
      Discard();
      if !cursor.Mono? || frame.Length != width * height {
        return false;
      }
      var r := Footprint(cursor, mouse, width, height);
      if r.Empty() {
        return true;
      }
      pixels := SavedRows(frame, width, height, r);
      rect, frameWidth, frameHeight := Some(r), width, height;
      return true;
    }

    /** Puts the saved rows back. A frame of another size is left alone; either way nothing stays saved. */
    method Restore(frame: array<Pixel>)
      requires Valid()
      modifies this, frame
      ensures rect == None && Valid()
      ensures frame[..] ==
        if old(rect).Some? && frame.Length == old(frameWidth) * old(frameHeight)
        then Patched(old(frame[..]), old(frameWidth), old(frameHeight), old(rect).value, old(pixels))
        else old(frame[..])
    {
      if rect.None? {
        return;
      }
      var r := rect.value;
      rect := None;
      if frame.Length != frameWidth * frameHeight {
        Discard();
        return;
      }
      var cols := r.Columns();
      ghost var was := frame[..];
      var row := 0;
      while row < r.Rows()
        invariant 0 <= row <= r.Rows()
        invariant rect == None && frameWidth == old(frameWidth) && frameHeight == old(frameHeight)
                  && pixels == old(pixels)
        invariant RestoredRows(frame[..], was, frameWidth, r, pixels, row)
      {
        RowBounds(r, frameWidth, frameHeight, row);
        var start := (r.top + row) * frameWidth + r.left;
        ghost var before := frame[..];
        CopyFromSlice(frame, start, pixels[row * cols..row * cols + cols]);
        RestoreRow(before, frame[..], was, frameWidth, frameHeight, r, pixels, row);
        row := row + 1;
      }
      RestoredAll(frame[..], was, frameWidth, frameHeight, r, pixels);
      frameWidth, frameHeight := 0, 0;
    }
  }

  /** The first `rows` rows of the rectangle hold the patch; every other pixel is as it was. */
  ghost predicate RestoredRows(now: seq<Pixel>, was: seq<Pixel>, width: nat, rect: Rect, patch: seq<Pixel>, rows: nat)
    requires |patch| == rect.Rows() * rect.Columns()
  {
    && |now| == |was|
    && forall i :: 0 <= i < |was| && width > 0 ==>
         now[i] == if i / width < rect.top + rows then PatchedPixel(was, width, rect, patch, i) else was[i]
  }

  lemma RestoreRow(before: seq<Pixel>, after: seq<Pixel>, was: seq<Pixel>, width: nat, height: nat,
                   rect: Rect, patch: seq<Pixel>, row: nat)
    requires |was| == width * height && rect.Within(width, height)
    requires |patch| == rect.Rows() * rect.Columns() && row < rect.Rows()
    requires RestoredRows(before, was, width, rect, patch, row)
    requires var cols, start := rect.Columns(), (rect.top + row) * width + rect.left;
             && 0 <= row * cols <= row * cols + cols <= |patch|
             && start + cols <= |before|
             && after == before[..start] + patch[row * cols..row * cols + cols] + before[start + cols..]
    ensures RestoredRows(after, was, width, rect, patch, row + 1)
  {
    var cols, start := rect.Columns(), (rect.top + row) * width + rect.left;
    forall i | 0 <= i < |was| && width > 0
      ensures after[i] == if i / width < rect.top + row + 1 then PatchedPixel(was, width, rect, patch, i) else was[i]
    {
      assert i < height * width;
      CellBounds(i, height, width);
      var x, y := i % width, i / width;
      if start <= i < start + cols {
        Cell(rect.top + row, i - (rect.top + row) * width, width);
        assert after[i] == patch[row * cols..row * cols + cols][i - start];
      } else {
        assert after[i] == before[i];
        if y == rect.top + row {
          assert i == y * width + x;
          assert !rect.Covers(x, y);
        }
      }
    }
  }

  lemma RestoredAll(now: seq<Pixel>, was: seq<Pixel>, width: nat, height: nat, rect: Rect, patch: seq<Pixel>)
    requires |was| == width * height && rect.Within(width, height)
    requires |patch| == rect.Rows() * rect.Columns()
    requires RestoredRows(now, was, width, rect, patch, rect.Rows())
    ensures now == Patched(was, width, height, rect, patch)
  {
    forall i | 0 <= i < |was|
      ensures now[i] == Patched(was, width, height, rect, patch)[i]
    {
      assert i < height * width;
      CellBounds(i, height, width);
    }
  }
}
