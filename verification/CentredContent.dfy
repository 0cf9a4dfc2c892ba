/** The detector of a centred picture on an 8-bit screen (systemless.rs). */
module CentredContent {
  import opened Base
  import opened ContentMargins

  /** How many pixels differ from the background. */
  function Drawn(line: seq<byte>, background: byte): nat {
    |multiset(line)| - multiset(line)[background]
  }

  lemma DrawnGrows(line: seq<byte>, background: byte, i: nat)
    requires i < |line|
    ensures Drawn(line[..i + 1], background) == Drawn(line[..i], background) + if line[i] != background then 1 else 0
  {
    assert line[..i + 1] == line[..i] + [line[i]];
  }

  lemma {:induction false} DrawnMonotone(line: seq<byte>, background: byte, i: nat)
    requires i <= |line|
    ensures Drawn(line[..i], background) <= Drawn(line, background)
    decreases |line| - i
  {
    if i == |line| {
      assert line[..i] == line;
    } else {
      DrawnGrows(line, background, i);
      DrawnMonotone(line, background, i + 1);
    }
  }

  /** Counts no further than the threshold. */
  method HasContent(line: seq<byte>, background: byte, threshold: nat) returns (found: bool)
    ensures found <==> Drawn(line, background) >= threshold
  {
    var count := 0;
    var i := 0;
    while i < |line| && count < threshold
      invariant i <= |line| && count == Drawn(line[..i], background)
    {
      DrawnGrows(line, background, i);
      if line[i] != background {
        count := count + 1;
      }
      i := i + 1;
    }
    DrawnMonotone(line, background, i);
    assert i == |line| ==> line[..i] == line;
    found := count >= threshold;
  }

  /** `from` and `end` enclose exactly the lines up to the first and from the last with content. */
  ghost predicate Encloses(from: nat, end: nat, lines: seq<seq<byte>>, background: byte, threshold: nat) {
    && from < end <= |lines|
    && Drawn(lines[from], background) >= threshold && Drawn(lines[end - 1], background) >= threshold
    && forall k :: 0 <= k < |lines| && !(from <= k < end) ==> Drawn(lines[k], background) < threshold
  }

  ghost predicate Blank(lines: seq<seq<byte>>, background: byte, threshold: nat) {
    forall k :: 0 <= k < |lines| ==> Drawn(lines[k], background) < threshold
  }

  lemma EnclosureIsUnique(a: nat, b: nat, c: nat, d: nat, lines: seq<seq<byte>>, background: byte, threshold: nat)
    requires Encloses(a, b, lines, background, threshold) && Encloses(c, d, lines, background, threshold)
    ensures a == c && b == d
  {
  }

  method Enclosure(lines: seq<seq<byte>>, background: byte, threshold: nat) returns (found: Option<(nat, nat)>)
    ensures found.None? ==> Blank(lines, background, threshold)
    ensures found.Some? ==> Encloses(found.value.0, found.value.1, lines, background, threshold)
  {
    var from := 0;
    while from < |lines|
      invariant from <= |lines|
      invariant forall k :: 0 <= k < from ==> Drawn(lines[k], background) < threshold
    {
      var hit := HasContent(lines[from], background, threshold);
      if hit {
        break;
      }
      from := from + 1;
    }
    if from == |lines| {
      return None;
    }
    var end := |lines|;
    while true
      invariant from < end <= |lines|
      invariant forall k :: end <= k < |lines| ==> Drawn(lines[k], background) < threshold
      decreases end
    {
      var hit := HasContent(lines[end - 1], background, threshold);
      if hit {
        return Some((from, end));
      }
      end := end - 1;
    }
  }

  /** Column `x` of some rows. */
  function Column(rows: seq<seq<byte>>, w: nat, x: nat): seq<byte>
    requires Rectangular(rows, w) && x < w
  {
    seq(|rows|, y requires 0 <= y < |rows| => rows[y][x])
  }

  function Columns(rows: seq<seq<byte>>, w: nat): (columns: seq<seq<byte>>)
    requires Rectangular(rows, w)
    ensures |columns| == w
  {
    seq(w, x requires 0 <= x < w => Column(rows, w, x))
  }

  function Corners(rows: seq<seq<byte>>, w: nat): seq<byte>
    requires Rectangular(rows, w) && |rows| > 0 && w > 0
  {
    [rows[0][0], rows[0][w - 1], rows[|rows| - 1][0], rows[|rows| - 1][w - 1]]
  }

  /** The colour of at least three corners. */
  method Background(corners: seq<byte>) returns (background: Option<byte>)
    requires |corners| == 4
    ensures background.Some? ==> multiset(corners)[background.value] >= 3
    ensures background.None? ==> forall v :: multiset(corners)[v] < 3
  {
    assert corners == [corners[0], corners[1], corners[2], corners[3]];
    for i := 0 to 4
      invariant forall k :: 0 <= k < i ==> multiset(corners)[corners[k]] < 3
    {
      if multiset(corners)[corners[i]] >= 3 {
        return Some(corners[i]);
      }
    }
    forall v ensures multiset(corners)[v] < 3 {
      if v in multiset(corners) {
        assert v in corners;
      }
    }
    background := None;
  }

  function Apart(a: nat, b: nat): nat { if a > b then a - b else b - a }

  /** Bordered on all sides, roughly centred, and at least half the screen each way. */
  predicate Centred(rect: ContentRect, w: nat, h: nat)
    requires rect.Within(w, h)
  {
    var right, bottom := w - rect.Right(), h - rect.Bottom();
    && rect.left >= 4 && right >= 4 && rect.top >= 4 && bottom >= 4
    && Apart(rect.left, right) <= Max(w / 100, 4) && Apart(rect.top, bottom) <= Max(h / 100, 4)
    && rect.width >= w / 2 && rect.height >= h / 2
  }

  /** The rectangle of the rows, and within them the columns, that hold enough foreground. */
  ghost predicate Picture(rows: seq<seq<byte>>, w: nat, background: byte, rect: ContentRect)
    requires Rectangular(rows, w)
  {
    && Encloses(rect.top, rect.Bottom(), rows, background, Max(w / 64, 8))
    && Encloses(rect.left, rect.Right(), Columns(rows[rect.top..rect.Bottom()], w), background,
                Max(rect.height / 64, 8))
  }

  lemma PictureIsUnique(rows: seq<seq<byte>>, w: nat, background: byte, a: ContentRect, b: ContentRect)
    requires Rectangular(rows, w) && Picture(rows, w, background, a) && Picture(rows, w, background, b)
    ensures a == b
  {
    EnclosureIsUnique(a.top, a.Bottom(), b.top, b.Bottom(), rows, background, Max(w / 64, 8));
    EnclosureIsUnique(a.left, a.Right(), b.left, b.Right(), Columns(rows[a.top..a.Bottom()], w), background,
                      Max(a.height / 64, 8));
  }

  ghost predicate IsBackground(rows: seq<seq<byte>>, w: nat, background: byte)
    requires Rectangular(rows, w) && |rows| > 0 && w > 0
  {
    multiset(Corners(rows, w))[background] >= 3
  }

  /** At most one colour holds three of four corners. */
  lemma OneBackground(rows: seq<seq<byte>>, w: nat, a: byte, b: byte)
    requires Rectangular(rows, w) && |rows| > 0 && w > 0 && IsBackground(rows, w, a) && IsBackground(rows, w, b)
    ensures a == b
  {
  }

  ghost predicate Detected(rows: seq<seq<byte>>, w: nat, rect: ContentRect)
    requires Rectangular(rows, w)
  {
    && w >= 32 && |rows| >= 32 && rect.Within(w, |rows|) && Centred(rect, w, |rows|)
    && exists background :: IsBackground(rows, w, background) && Picture(rows, w, background, rect)
  }

  /** There is never a choice of rectangle. */
  lemma DetectedIsUnique(rows: seq<seq<byte>>, w: nat, a: ContentRect, b: ContentRect)
    requires Rectangular(rows, w) && Detected(rows, w, a) && Detected(rows, w, b)
    ensures a == b
  {
    var x :| IsBackground(rows, w, x) && Picture(rows, w, x, a);
    var y :| IsBackground(rows, w, y) && Picture(rows, w, y, b);
    OneBackground(rows, w, x, y);
    PictureIsUnique(rows, w, x, a, b);
  }

  ghost predicate DetectedOn(screen: Screen, rect: ContentRect) {
    screen.Complete() && Detected(screen.Rows(), screen.width, rect)
  }

  /** Rows that enclose the content are a picture's rows. */
  lemma PictureRows(rows: seq<seq<byte>>, w: nat, background: byte, top: nat, bottom: nat, rect: ContentRect)
    requires Rectangular(rows, w) && Encloses(top, bottom, rows, background, Max(w / 64, 8))
             && Picture(rows, w, background, rect)
    ensures rect.top == top && rect.Bottom() == bottom
  {
    EnclosureIsUnique(rect.top, rect.Bottom(), top, bottom, rows, background, Max(w / 64, 8));
  }

  /** The first and last rows with content, then the first and last columns of those rows. */
  method FindPicture(rows: seq<seq<byte>>, w: nat, background: byte) returns (found: Option<ContentRect>)
    requires Rectangular(rows, w)
    ensures found.Some? ==> Picture(rows, w, background, found.value)
    ensures found.None? ==> forall rect :: !Picture(rows, w, background, rect)
  {
    var vertical := Enclosure(rows, background, Max(w / 64, 8));
    if vertical == None {
      return None;
    }
    var (top, bottom) := vertical.value;
    var columns := Columns(rows[top..bottom], w);
    var horizontal := Enclosure(columns, background, Max((bottom - top) / 64, 8));
    if horizontal == None {
      forall rect ensures !Picture(rows, w, background, rect) {
        if Picture(rows, w, background, rect) {
          PictureRows(rows, w, background, top, bottom, rect);
        }
      }
      return None;
    }
    var (left, right) := horizontal.value;
    found := Some(ContentRect(left, top, right - left, bottom - top));
  }

  method DetectIn(rows: seq<seq<byte>>, w: nat) returns (found: Option<ContentRect>)
    requires Rectangular(rows, w) && w >= 32 && |rows| >= 32
    ensures found.Some? ==> Detected(rows, w, found.value)
    ensures found.None? ==> forall rect :: !Detected(rows, w, rect)
  {
    var background := Background(Corners(rows, w));
    if background == None {
      assert forall v :: !IsBackground(rows, w, v);
      return None;
    }
    assert IsBackground(rows, w, background.value);
    var picture := FindPicture(rows, w, background.value);
    forall rect | Detected(rows, w, rect) ensures picture == Some(rect) {
      var x :| IsBackground(rows, w, x) && Picture(rows, w, x, rect);
      OneBackground(rows, w, x, background.value);
      assert picture.Some?;
      PictureIsUnique(rows, w, x, rect, picture.value);
    }
    found := if picture.Some? && Centred(picture.value, w, |rows|) then picture else None;
  }

  /** Finds the centred picture, exactly when there is one. */
  method DetectCentred(screen: Screen) returns (found: Option<ContentRect>)
    ensures found.Some? ==> DetectedOn(screen, found.value)
    ensures found.None? ==> forall rect :: !DetectedOn(screen, rect)
  {
    if screen.width < 32 || screen.height < 32 || screen.rowBytes < screen.width
       || |screen.pixels| < screen.rowBytes * screen.height {
      return None;
    }
    found := DetectIn(screen.Rows(), screen.width);
  }
}
