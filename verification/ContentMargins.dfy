/** How the desktop runner judges a proposed crop of the guest screen (systemless.rs): the
    histogram of the pixels a crop leaves out, and the detector of a centred picture. */
module ContentMargins {
  import opened Base

  datatype ContentRect = ContentRect(left: nat, top: nat, width: nat, height: nat)
  {
    function Right(): nat { left + width }
    function Bottom(): nat { top + height }
    predicate Within(w: nat, h: nat) { width > 0 && height > 0 && Right() <= w && Bottom() <= h }
    predicate Covers(y: int, x: int) { top <= y < Bottom() && left <= x < Right() }
  }

  function FullScreen(w: nat, h: nat): ContentRect { ContentRect(0, 0, w, h) }

  /** An 8-bit framebuffer; each row may carry padding, and the buffer may be too short. */
  datatype Screen = Screen(pixels: seq<byte>, rowBytes: nat, width: nat, height: nat)
  {
    predicate Complete() { width <= rowBytes && rowBytes * height <= |pixels| }

    function Row(y: nat): (row: seq<byte>)
      requires Complete() && y < height
      ensures |row| == width
    {
      RowsFit(y, height, rowBytes);
      assert height * rowBytes == rowBytes * height;
      assert 0 <= y * rowBytes;
      pixels[y * rowBytes..y * rowBytes + width]
    }

    /** The visible rows, without padding. */
    function Rows(): (rows: seq<seq<byte>>)
      requires Complete()
      ensures |rows| == height && Rectangular(rows, width)
      ensures forall y: nat :: y < height ==> rows[y] == Row(y)
    {
      seq(height, y requires 0 <= y < height => Row(y))
    }
  }

  ghost predicate Rectangular(rows: seq<seq<byte>>, w: nat) {
    forall y :: 0 <= y < |rows| ==> |rows[y]| == w
  }

  // ---------- The margin histogram ----------

  ghost predicate MarginCell(rows: seq<seq<byte>>, w: nat, rect: ContentRect, v: byte, y: int, x: int)
    requires Rectangular(rows, w)
  {
    0 <= y < |rows| && 0 <= x < w && !rect.Covers(y, x) && rows[y][x] == v
  }

  /** The pixels outside the crop that have value `v`. */
  ghost function MarginCells(rows: seq<seq<byte>>, w: nat, rect: ContentRect, v: byte): set<(int, int)>
    requires Rectangular(rows, w)
  {
    set y, x | 0 <= y < |rows| && 0 <= x < w && MarginCell(rows, w, rect, v, y, x) :: (y, x)
  }

  /** Those of the first `c` columns of the last row and of the rows above it. */
  ghost function CellsBefore(rows: seq<seq<byte>>, w: nat, rect: ContentRect, v: byte, c: nat): set<(int, int)>
    requires Rectangular(rows, w) && |rows| > 0
  {
    set y, x | 0 <= y < |rows| && 0 <= x < w && MarginCell(rows, w, rect, v, y, x)
        && (y < |rows| - 1 || x < c) :: (y, x)
  }

  /** The columns of row `y` the crop takes: none outside its rows. */
  function Hole(rect: ContentRect, w: nat, y: nat): (hole: (nat, nat))
    requires rect.Right() <= w
    ensures hole.0 <= hole.1 <= w
    ensures forall x :: 0 <= x < w ==> (rect.Covers(y, x) <==> hole.0 <= x < hole.1)
  {
    if rect.top <= y < rect.Bottom() then (rect.left, rect.Right()) else (w, w)
  }

  function Around(row: seq<byte>, hole: (nat, nat)): seq<byte>
    requires hole.0 <= hole.1 <= |row|
  {
    row[..hole.0] + row[hole.1..]
  }

  /** The margin pixels of the rows. */
  function Margin(rows: seq<seq<byte>>, w: nat, rect: ContentRect): multiset<byte>
    requires Rectangular(rows, w) && rect.Right() <= w
  {
    if rows == [] then multiset{}
    else
      var n := |rows| - 1;
      Margin(rows[..n], w, rect) + multiset(Around(rows[n], Hole(rect, w, n)))
  }

  /** The first `c` entries of a row outside the hole. */
  function Kept(row: seq<byte>, hole: (nat, nat), c: nat): seq<byte>
    requires c <= |row|
  {
    if c == 0 then []
    else Kept(row, hole, c - 1) + if hole.0 <= c - 1 < hole.1 then [] else [row[c - 1]]
  }

  lemma {:induction false} KeptIsSlices(row: seq<byte>, hole: (nat, nat), c: nat)
    requires hole.0 <= hole.1 <= |row| && c <= |row|
    ensures Kept(row, hole, c) == row[..Min(c, hole.0)] + row[hole.1..Max(c, hole.1)]
  {
    if c > 0 {
      KeptIsSlices(row, hole, c - 1);
    }
  }

  lemma KeptAll(row: seq<byte>, hole: (nat, nat))
    requires hole.0 <= hole.1 <= |row|
    ensures Kept(row, hole, |row|) == Around(row, hole)
  {
    KeptIsSlices(row, hole, |row|);
  }

  lemma OneMoreCell(rows: seq<seq<byte>>, w: nat, rect: ContentRect, v: byte, c: nat)
    requires Rectangular(rows, w) && |rows| > 0 && c < w
    ensures |CellsBefore(rows, w, rect, v, c + 1)| - |CellsBefore(rows, w, rect, v, c)|
         == if MarginCell(rows, w, rect, v, |rows| - 1, c) then 1 else 0
  {
    var cell := (|rows| - 1, c);
    var was, now := CellsBefore(rows, w, rect, v, c), CellsBefore(rows, w, rect, v, c + 1);
    assert cell !in was;
    if MarginCell(rows, w, rect, v, |rows| - 1, c) {
      assert now == was + {cell};
    } else {
      assert now == was;
    }
  }

  lemma KeptOne(row: seq<byte>, hole: (nat, nat), v: byte, c: nat)
    requires c < |row|
    ensures multiset(Kept(row, hole, c + 1))[v] - multiset(Kept(row, hole, c))[v]
         == if !(hole.0 <= c < hole.1) && row[c] == v then 1 else 0
  {
  }

  ghost function CellCount(rows: seq<seq<byte>>, w: nat, rect: ContentRect, v: byte, c: nat): nat
    requires Rectangular(rows, w) && |rows| > 0
  {
    |CellsBefore(rows, w, rect, v, c)|
  }

  ghost function KeptCount(row: seq<byte>, hole: (nat, nat), v: byte, c: nat): nat
    requires c <= |row|
  {
    multiset(Kept(row, hole, c))[v]
  }

  lemma SameStep(rows: seq<seq<byte>>, w: nat, rect: ContentRect, v: byte, c: nat)
    requires Rectangular(rows, w) && rect.Right() <= w && |rows| > 0 && c < w
    ensures var n := |rows| - 1;
      CellCount(rows, w, rect, v, c + 1) - CellCount(rows, w, rect, v, c)
      == KeptCount(rows[n], Hole(rect, w, n), v, c + 1) - KeptCount(rows[n], Hole(rect, w, n), v, c)
  {
    OneMoreCell(rows, w, rect, v, c);
    KeptOne(rows[|rows| - 1], Hole(rect, w, |rows| - 1), v, c);
  }

  lemma {:induction false} RowCells(rows: seq<seq<byte>>, w: nat, rect: ContentRect, v: byte, c: nat)
    requires Rectangular(rows, w) && rect.Right() <= w && |rows| > 0 && c <= w
    ensures CellCount(rows, w, rect, v, c)
         == CellCount(rows, w, rect, v, 0) + KeptCount(rows[|rows| - 1], Hole(rect, w, |rows| - 1), v, c)
  {
    if c > 0 {
      RowCells(rows, w, rect, v, c - 1);
      SameStep(rows, w, rect, v, c - 1);
    }
  }

  lemma CellBorders(rows: seq<seq<byte>>, w: nat, rect: ContentRect, v: byte)
    requires Rectangular(rows, w) && |rows| > 0
    ensures CellsBefore(rows, w, rect, v, 0) == MarginCells(rows[..|rows| - 1], w, rect, v)
    ensures CellsBefore(rows, w, rect, v, w) == MarginCells(rows, w, rect, v)
  {
  }

  /** The three loops count every pixel outside the crop exactly once. */
  lemma {:induction false} HistogramIsExact(rows: seq<seq<byte>>, w: nat, rect: ContentRect, v: byte)
    requires Rectangular(rows, w) && rect.Right() <= w
    ensures Margin(rows, w, rect)[v] == |MarginCells(rows, w, rect, v)|
  {
    if rows == [] {
      assert MarginCells(rows, w, rect, v) == {};
    } else {
      var n := |rows| - 1;
      HistogramIsExact(rows[..n], w, rect, v);
      CellBorders(rows, w, rect, v);
      RowCells(rows, w, rect, v, w);
      KeptAll(rows[n], Hole(rect, w, n));
    }
  }

  /** How many rows of the crop are among the first `n`. */
  function CropRows(rect: ContentRect, n: nat): nat { Clamp(n, rect.top, rect.Bottom()) - rect.top }

  function SizeTo(rect: ContentRect, w: nat, n: nat): int { n * w - CropRows(rect, n) * rect.width }

  lemma SizeStep(rect: ContentRect, w: nat, n: nat)
    ensures SizeTo(rect, w, n + 1) == SizeTo(rect, w, n) + if rect.top <= n < rect.Bottom() then w - rect.width else w
  {
    OneMoreTime(n, w);
    OneMoreTime(CropRows(rect, n), rect.width);
  }

  /** They count as many pixels as the screen has beyond the crop. */
  lemma {:induction false} MarginSize(rows: seq<seq<byte>>, w: nat, rect: ContentRect)
    requires Rectangular(rows, w) && rect.Right() <= w
    ensures |Margin(rows, w, rect)| == SizeTo(rect, w, |rows|)
  {
    if rows != [] {
      var n := |rows| - 1;
      MarginSize(rows[..n], w, rect);
      SizeStep(rect, w, n);
      assert |Around(rows[n], Hole(rect, w, n))| == if rect.top <= n < rect.Bottom() then w - rect.width else w;
    }
  }

  lemma SmallerProduct(a: nat, b: nat, x: nat, y: nat)
    requires a < b && x <= y && y > 0
    ensures a * x < b * y
  {
    MulMono(x, y, a);
    MulMono(a + 1, b, y);
    OneMoreTime(a, y);
    assert x * a == a * x && y * a == a * y;
  }

  /** A crop of part of the screen leaves pixels out. */
  lemma CropIsSmaller(rect: ContentRect, w: nat, h: nat)
    requires rect.Within(w, h) && rect != FullScreen(w, h)
    ensures rect.height * rect.width < h * w
  {
    if rect.width < w {
      SmallerProduct(rect.width, w, rect.height, h);
      assert rect.height * rect.width == rect.width * rect.height && h * w == w * h;
    } else {
      SmallerProduct(rect.height, h, rect.width, w);
    }
  }

  const ACTIVE_MARGIN_PERCENT := 10

  /** How many pixels the crop leaves out. */
  function MarginArea(rect: ContentRect, w: nat, h: nat): int { h * w - rect.height * rect.width }

  predicate Few(area: int, most: int) { (area - most) * 100 < area * ACTIVE_MARGIN_PERCENT }

  /** Less than a tenth of the margin differs from the value `v`. */
  ghost predicate Dominates(rows: seq<seq<byte>>, w: nat, rect: ContentRect, v: byte)
    requires Rectangular(rows, w)
  {
    Few(MarginArea(rect, w, |rows|), |MarginCells(rows, w, rect, v)|)
  }

  /** What the verdict means. */
  ghost predicate InactiveMargins(screen: Screen, rect: ContentRect) {
    && rect.Within(screen.width, screen.height) && screen.Complete()
    && (rect == FullScreen(screen.width, screen.height)
        || exists v :: Dominates(screen.Rows(), screen.width, rect, v))
  }

  /** The counters hold the multiplicities of the pixels seen. */
  ghost predicate Tallies(counters: seq<nat>, seen: multiset<byte>) {
    |counters| == 256 && forall v: byte {:trigger seen[v]} :: counters[v as int] == seen[v]
  }

  lemma TallyOne(counters: seq<nat>, seen: multiset<byte>, pixel: byte)
    requires Tallies(counters, seen)
    ensures Tallies(counters[pixel as int := counters[pixel as int] + 1], seen + multiset{pixel})
  {
  }

  method CountPixels(histogram: array<nat>, total: nat, pixels: seq<byte>, ghost seen: multiset<byte>)
    returns (sum: nat)
    requires Tallies(histogram[..], seen) && total == |seen|
    modifies histogram
    ensures Tallies(histogram[..], seen + multiset(pixels)) && sum == |seen + multiset(pixels)|
  {
    assert seen + multiset(pixels[..0]) == seen;
    for i := 0 to |pixels|
      invariant histogram.Length == 256 && Tallies(histogram[..], seen + multiset(pixels[..i]))
    {
      TallyOne(histogram[..], seen + multiset(pixels[..i]), pixels[i]);
      histogram[pixels[i] as int] := histogram[pixels[i] as int] + 1;
      assert pixels[..i + 1] == pixels[..i] + [pixels[i]];
      assert seen + multiset(pixels[..i + 1]) == seen + multiset(pixels[..i]) + multiset{pixels[i]};
    }
    assert pixels[..|pixels|] == pixels;
    sum := total + |pixels|;
  }

  ghost predicate Counted(counters: seq<nat>, total: nat, seen: multiset<byte>) {
    Tallies(counters, seen) && total == |seen|
  }

  function RowMargin(row: seq<byte>, rect: ContentRect, y: nat): multiset<byte>
    requires rect.Right() <= |row|
  {
    if rect.top <= y < rect.Bottom() then multiset(row[..rect.left]) + multiset(row[rect.Right()..]) else multiset(row)
  }

  /** `above[y]` is the margin of the rows above `y`. */
  ghost predicate MarginsAbove(above: seq<multiset<byte>>, rows: seq<seq<byte>>, w: nat, rect: ContentRect)
    requires Rectangular(rows, w) && rect.Right() <= w
  {
    && |above| == |rows| + 1 && above[0] == multiset{}
    && forall y, y' :: 0 <= y && y' == y + 1 && y < |rows| ==> above[y'] == above[y] + RowMargin(rows[y], rect, y)
  }

  lemma MarginsOf(rows: seq<seq<byte>>, w: nat, rect: ContentRect) returns (above: seq<multiset<byte>>)
    requires Rectangular(rows, w) && rect.Right() <= w
    ensures MarginsAbove(above, rows, w, rect) && above[|rows|] == Margin(rows, w, rect)
  {
    above := seq(|rows| + 1, y requires 0 <= y <= |rows| => Margin(rows[..y], w, rect));
    forall y, y' | 0 <= y && y' == y + 1 && y < |rows| ensures above[y'] == above[y] + RowMargin(rows[y], rect, y) {
      assert rows[..y'][..y] == rows[..y];
      assert Around(rows[y], (w, w)) == rows[y];
    }
    assert rows[..|rows|] == rows;
  }

  method CountSides(pixels: seq<byte>, rect: ContentRect, histogram: array<nat>, total: nat, ghost seen: multiset<byte>)
    returns (sum: nat)
    requires rect.Right() <= |pixels| && Counted(histogram[..], total, seen)
    modifies histogram
    ensures Counted(histogram[..], sum, seen + (multiset(pixels[..rect.left]) + multiset(pixels[rect.Right()..])))
  {
    sum := CountPixels(histogram, total, pixels[..rect.left], seen);
    sum := CountPixels(histogram, sum, pixels[rect.Right()..], seen + multiset(pixels[..rect.left]));
    assert seen + multiset(pixels[..rect.left]) + multiset(pixels[rect.Right()..])
        == seen + (multiset(pixels[..rect.left]) + multiset(pixels[rect.Right()..]));
  }

  /** The rows above the crop, those beside it, those below. */
  method CountMargin(rows: seq<seq<byte>>, w: nat, rect: ContentRect, histogram: array<nat>,
                     ghost above: seq<multiset<byte>>)
    returns (total: nat)
    requires Rectangular(rows, w) && rect.Within(w, |rows|) && MarginsAbove(above, rows, w, rect)
    requires Tallies(histogram[..], multiset{})
    modifies histogram
    ensures Counted(histogram[..], total, above[|rows|])
  {
    total := 0;
    for y := 0 to rect.top
      invariant Counted(histogram[..], total, above[y])
    {
      total := CountPixels(histogram, total, rows[y], above[y]);
    }
    for y := rect.top to rect.Bottom()
      invariant Counted(histogram[..], total, above[y])
    {
      total := CountSides(rows[y], rect, histogram, total, above[y]);
    }
    for y := rect.Bottom() to |rows|
      invariant Counted(histogram[..], total, above[y])
    {
      total := CountPixels(histogram, total, rows[y], above[y]);
    }
  }

  method Greatest(histogram: array<nat>, ghost seen: multiset<byte>) returns (most: nat)
    requires Tallies(histogram[..], seen)
    ensures exists v :: seen[v] == most
    ensures forall v :: seen[v] <= most
  {
    most := histogram[0];
    ghost var at: byte := 0;
    for i := 1 to 256
      invariant seen[at] == most
      invariant forall v: byte {:trigger seen[v]} :: v as int < i ==> seen[v] <= most
    {
      assert histogram[i] == seen[i as byte];
      if histogram[i] > most {
        most, at := histogram[i], i as byte;
      }
    }
  }

  lemma VerdictMeaning(rows: seq<seq<byte>>, w: nat, rect: ContentRect, most: nat)
    requires Rectangular(rows, w) && rect.Within(w, |rows|) && rect != FullScreen(w, |rows|)
    requires forall v :: Margin(rows, w, rect)[v] <= most
    requires exists v :: Margin(rows, w, rect)[v] == most
    ensures |Margin(rows, w, rect)| == MarginArea(rect, w, |rows|) > 0
    ensures (exists v :: Dominates(rows, w, rect, v)) <==> Few(|Margin(rows, w, rect)|, most)
  {
    MarginSize(rows, w, rect);
    assert CropRows(rect, |rows|) == rect.height;
    CropIsSmaller(rect, w, |rows|);
    var margin := Margin(rows, w, rect);
    forall v ensures Dominates(rows, w, rect, v) == Few(|margin|, margin[v]) {
      HistogramIsExact(rows, w, rect, v);
    }
    var top :| margin[top] == most;
    assert Dominates(rows, w, rect, top) == Few(|margin|, most);
  }

  /** The verdict: the crop is the whole screen, or one value fills more than nine tenths of what
      it leaves out. A crop off the screen, or a short buffer, is never quiet. */
  method HasInactiveMargins(screen: Screen, rect: ContentRect) returns (verdict: bool)
    ensures verdict <==> InactiveMargins(screen, rect)
  {
    if rect.width == 0 || rect.height == 0 || rect.Right() > screen.width || rect.Bottom() > screen.height
       || screen.rowBytes < screen.width || |screen.pixels| < screen.rowBytes * screen.height {
      return false;
    }
    if rect.left == 0 && rect.top == 0 && rect.Right() == screen.width && rect.Bottom() == screen.height {
      return true;
    }
    verdict := MarginVerdict(screen.Rows(), screen.width, rect);
  }

  method MarginVerdict(rows: seq<seq<byte>>, w: nat, rect: ContentRect) returns (verdict: bool)
    requires Rectangular(rows, w) && rect.Within(w, |rows|) && rect != FullScreen(w, |rows|)
    ensures verdict <==> exists v :: Dominates(rows, w, rect, v)
  {
    var histogram := new nat[256](i => 0);
    ghost var above := MarginsOf(rows, w, rect);
    var total := CountMargin(rows, w, rect, histogram, above);
    var dominant := Greatest(histogram, Margin(rows, w, rect));
    VerdictMeaning(rows, w, rect, dominant);
    var active := total - dominant;
    verdict := total != 0 && active * 100 < total * ACTIVE_MARGIN_PERCENT;
  }
}
