/** Compact presentations: one word per guest pixel, or a tile of scale × scale samples. At every
    whole output scale the WebGL shader (renderer-gpu.js) and the native resolver
    (presentation/compact.rs) compute the same colour for every output pixel. */
module CompactSampling {
  import opened Base
  import opened CoverageArithmetic
  import opened CompactAxis

  type Word = x: nat | x < U32_LIMIT

  const DETAIL_BIT := 0x8000_0000
  const MAX_WORDS := 16 * 1024 * 1024
  const WORD64 := 0x1_0000_0000_0000_0000

  datatype Compact = Compact(width: nat, height: nat, scale: nat, cells: seq<Word>, detail: seq<Word>)
  {
    /** Detail references name whole tiles. */
    predicate ReferencesFit() {
      forall k :: 0 <= k < |cells| && cells[k] >= DETAIL_BIT ==> Offset(cells[k]) + scale * scale <= |detail|
    }

    /** Sizes, scale and references are in range. */
    predicate Complete() {
      && width > 0 && height > 0 && 1 <= scale <= 4
      && height * width <= MAX_WORDS && |cells| == height * width && |detail| <= MAX_WORDS
      && ReferencesFit()
    }

    function Cell(y: nat, x: nat): Word
      requires Complete() && y < height && x < width
    {
      CellIndex(y, x, height, width);
      cells[y * width + x]
    }
  }

  lemma CellIndex(y: nat, x: nat, height: nat, width: nat)
    requires y < height && x < width
    ensures 0 <= y * width + x < height * width
  {
    RowsFit(y, height, width);
  }

  function Offset(cell: Word): nat { cell % DETAIL_BIT }

  /** Byte 0, 1 or 2 of a word: its blue, green or red. */
  function Channel(word: Word, c: nat): nat
    requires c < 3
  {
    if c == 0 then word % 256 else if c == 1 then word / 256 % 256 else word / 65536 % 256
  }

  // ---------- Validation ----------

  /** A frame of `w` by `h` pixels shows the packet enlarged by the whole number `out`. */
  predicate Acceptable(source: Compact, w: nat, h: nat, maxTexture: nat, out: nat) {
    && source.Complete() && 1 <= out <= 4 && w == source.width * out && h == source.height * out
    && 1 <= w <= maxTexture && 1 <= h <= maxTexture && w * h <= MAX_WORDS
  }

  lemma ScaleIsQuotient(a: nat, b: nat, q: nat)
    requires b > 0
    ensures a == b * q <==> a % b == 0 && a / b == q
  {
    if a == b * q {
      assert a == q * b;
      QuotientIs(a, b, q);
    }
  }

  method Validate(source: Compact, w: nat, h: nat, maxTexture: nat) returns (out: Option<nat>)
    ensures out.Some? ==> Acceptable(source, w, h, maxTexture, out.value)
    ensures out.None? ==> forall q :: !Acceptable(source, w, h, maxTexture, q)
  {
    if source.width < 1 || source.height < 1 || w < 1 || h < 1 || w > maxTexture || h > maxTexture
       || source.height * source.width > MAX_WORDS || w * h > MAX_WORDS || source.scale < 1 || source.scale > 4
       || |source.cells| != source.height * source.width || |source.detail| > MAX_WORDS {
      return None;
    }
    forall q ensures w == source.width * q <==> w % source.width == 0 && w / source.width == q {
      if q >= 0 {
        ScaleIsQuotient(w, source.width, q);
      }
    }
    if w % source.width != 0 {
      return None;
    }
    var outputScale := w / source.width;
    if outputScale < 1 || outputScale > 4 || h != source.height * outputScale {
      return None;
    }
    var tile := source.scale * source.scale;
    for k := 0 to |source.cells|
      invariant forall i :: 0 <= i < k && source.cells[i] >= DETAIL_BIT ==>
                  Offset(source.cells[i]) + tile <= |source.detail|
    {
      if source.cells[k] >= DETAIL_BIT && Offset(source.cells[k]) + tile > |source.detail| {
        return None;
      }
    }
    out := Some(outputScale);
  }

  /** The shader rebuilds an offset from three bytes: nothing is lost. */
  lemma OffsetFitsThreeBytes(source: Compact, y: nat, x: nat)
    requires source.Complete() && y < source.height && x < source.width && source.Cell(y, x) >= DETAIL_BIT
    ensures var cell := source.Cell(y, x);
            Channel(cell, 0) + Channel(cell, 1) * 256 + Channel(cell, 2) * 65536 == Offset(cell)
  {
    var cell := source.Cell(y, x);
    CellIndex(y, x, source.height, source.width);
    assert Offset(cell) < MAX_WORDS by {
      MulMono(1, source.scale, source.scale);
    }
    ThreeBytes(cell);
  }

  lemma ThreeBytes(cell: Word)
    requires cell >= DETAIL_BIT && Offset(cell) < MAX_WORDS
    ensures Channel(cell, 0) + Channel(cell, 1) * 256 + Channel(cell, 2) * 65536 == Offset(cell)
  {
    var o := Offset(cell);
    assert cell == DETAIL_BIT + o;
    assert o / 65536 < 256;
  }

  // ---------- The detail texture ----------

  datatype Texture = Texture(width: nat, texels: seq<seq<Word>>)
  {
    /** Word `index` of the uploaded detail is at column index mod width of row index / width. */
    predicate Has(index: nat, word: Word) {
      width > 0 && index / width < |texels| && index % width < |texels[index / width]|
      && texels[index / width][index % width] == word
    }
  }

  ghost predicate Holds(t: Texture, detail: seq<Word>) {
    t.width > 0 && forall k {:trigger detail[k]} :: 0 <= k < |detail| ==> t.Has(k, detail[k])
  }

  /** Row `r` of the texture holds its words. */
  ghost predicate RowHolds(row: seq<Word>, detail: seq<Word>, width: nat, r: nat) {
    |row| == width && forall x, k :: 0 <= x < width && k == r * width + x && k < |detail| ==> row[x] == detail[k]
  }

  ghost predicate Shaped(texels: seq<seq<Word>>, width: nat, height: nat) {
    |texels| == height && forall r :: 0 <= r < height ==> |texels[r]| == width
  }

  lemma FullRow(detail: seq<Word>, width: nat, rows: nat, r: nat)
    requires r < rows && rows * width <= |detail|
    ensures 0 <= r * width <= r * width + width <= |detail|
  {
    RowsFit(r, rows, width);
  }

  lemma RowsHoldAll(t: Texture, detail: seq<Word>, rows: nat)
    requires t.width > 0 && |t.texels| >= rows && |detail| <= rows * t.width
    requires forall r :: 0 <= r < rows ==> RowHolds(t.texels[r], detail, t.width, r)
    ensures Holds(t, detail)
  {
    forall k | 0 <= k < |detail| ensures t.Has(k, detail[k]) {
      CellBounds(k, rows, t.width);
      assert RowHolds(t.texels[k / t.width], detail, t.width, k / t.width);
    }
  }

  /** Full rows and the tail fit the texture. */
  lemma RowsNeeded(n: nat, width: nat)
    requires width > 0
    ensures var rows, height := n / width, Max(1, CeilDiv(n, width));
            && 0 <= rows <= height && rows * width + n % width == n
            && (n % width > 0 ==> rows < height && n <= (rows + 1) * width)
  {
    var rows, rest, c := n / width, n % width, CeilDiv(n, width);
    assert n == rows * width + rest;
    CeilDivIsLeast(n, width, c);
    OneMoreTime(c, width);
    OneMoreTime(rows, width);
    CancelLess(rows, c + 1, width);
    if rest > 0 {
      CancelLess(rows, c, width);
    }
  }

  method UploadTail(texels: seq<seq<Word>>, detail: seq<Word>, width: nat, height: nat, rows: nat)
    returns (now: seq<seq<Word>>)
    requires Shaped(texels, width, height) && rows < height
    requires 0 <= rows * width <= |detail| <= rows * width + width
    requires forall r :: 0 <= r < rows ==> RowHolds(texels[r], detail, width, r)
    ensures Shaped(now, width, height) && forall r :: 0 <= r <= rows ==> RowHolds(now[r], detail, width, r)
  {
    var rest := detail[rows * width..];
    now := texels[rows := rest + texels[rows][|rest|..]];
  }

  class DetailTexture {
    var size: Option<(nat, nat)>
    var texels: seq<seq<Word>>

    ghost predicate Valid()
      reads this
    {
      size.Some? ==> Shaped(texels, size.value.0, size.value.1)
    }

    constructor ()
      ensures Valid()
    {
      size, texels := None, [];
    }

    /** Uploads full rows, then the tail; the texture is kept when its size stays. */
    method Upload(detail: seq<Word>, side: nat, maxTexture: nat) returns (width: nat, ok: bool)
      requires Valid() && side > 0
      modifies this
      ensures Valid()
      ensures width == Min(side, Max(1, |detail|)) && (ok <==> Max(1, CeilDiv(|detail|, width)) <= maxTexture)
      ensures ok ==> Holds(Texture(width, texels), detail)
    {
      width := Min(side, Max(1, |detail|));
      var height := Max(1, CeilDiv(|detail|, width));
      if height > maxTexture {
        ok := false;
        return;
      }
      if size != Some((width, height)) {
        texels := seq(height, r => seq(width, x => 0));
        size := Some((width, height));
      }
      var rows, tail := |detail| / width, |detail| % width;
      RowsNeeded(|detail|, width);
      UploadRows(detail, width, height, rows);
      if tail > 0 {
        texels := UploadTail(texels, detail, width, height, rows);
      }
      RowsHoldAll(Texture(width, texels), detail, if tail > 0 then rows + 1 else rows);
      ok := true;
    }

    method UploadRows(detail: seq<Word>, width: nat, height: nat, rows: nat)
      requires size == Some((width, height)) && Shaped(texels, width, height)
      requires rows <= height && rows * width <= |detail|
      modifies this`texels
      ensures Shaped(texels, width, height)
      ensures forall r :: 0 <= r < rows ==> RowHolds(texels[r], detail, width, r)
    {
      for r := 0 to rows
        invariant Shaped(texels, width, height)
        invariant forall k :: 0 <= k < r ==> RowHolds(texels[k], detail, width, k)
      {
        FullRow(detail, width, rows, r);
        texels := texels[r := detail[r * width..r * width + width]];
      }
    }
  }

  // ---------- What both compute ----------

  lemma SampleIndex(source: Compact, offset: nat, sy: nat, sx: nat)
    requires offset + source.scale * source.scale <= |source.detail| && sy < source.scale && sx < source.scale
    ensures 0 <= offset + sy * source.scale + sx < |source.detail|
  {
    RowsFit(sy, source.scale, source.scale);
  }

  function DetailAt(source: Compact, offset: nat, sy: nat, sx: nat): Word
    requires offset + source.scale * source.scale <= |source.detail| && sy < source.scale && sx < source.scale
  {
    SampleIndex(source, offset, sy, sx);
    source.detail[offset + sy * source.scale + sx]
  }

  /** One row of a tile, in one channel. */
  function TileRow(source: Compact, offset: nat, sy: nat, c: nat): (row: seq<nat>)
    requires offset + source.scale * source.scale <= |source.detail| && sy < source.scale && c < 3
    ensures |row| == source.scale
  {
    seq(source.scale, sx requires 0 <= sx < source.scale => Channel(DetailAt(source, offset, sy, sx), c))
  }

  /** The share an output column has of each row of a tile. */
  function RowShares(source: Compact, offset: nat, out: nat, wx: nat, c: nat): (shares: seq<nat>)
    requires offset + source.scale * source.scale <= |source.detail| && source.scale > 0 && wx < out && c < 3
    ensures |shares| == source.scale
  {
    seq(source.scale,
        sy requires 0 <= sy < source.scale => Share(source.scale, out, wx, TileRow(source, offset, sy, c)))
  }

  /** One channel of output pixel (wy, wx) of a cell: the cell's own colour, or the rounded area
      average of its tile under the pixel. */
  function PixelColour(source: Compact, out: nat, cy: nat, cx: nat, wy: nat, wx: nat, c: nat): nat
    requires source.Complete() && cy < source.height && cx < source.width && wy < out && wx < out && c < 3
  {
    var cell := source.Cell(cy, cx);
    if cell < DETAIL_BIT then Channel(cell, c)
    else
      CellIndex(cy, cx, source.height, source.width);
      CoveragePositive(source.scale, out);
      RoundedAverage(Share(source.scale, out, wy, RowShares(source, Offset(cell), out, wx, c)),
                     Coverage(source.scale, out) * Coverage(source.scale, out))
  }

  /** The same, for the output pixel at (py, px) of the whole image. */
  function Colour(source: Compact, out: nat, py: nat, px: nat, c: nat): nat
    requires source.Complete() && out > 0 && py < source.height * out && px < source.width * out && c < 3
  {
    InCell(py, source.height, out);
    InCell(px, source.width, out);
    PixelColour(source, out, py / out, px / out, py % out, px % out, c)
  }

  lemma InCell(p: nat, cells: nat, out: nat)
    requires out > 0 && p < cells * out
    ensures p / out < cells && p % out < out && p == (p / out) * out + p % out
  {
    CellBounds(p, cells, out);
  }

  lemma CoveragePositive(scale: nat, out: nat)
    requires scale > 0
    ensures Coverage(scale, out) * Coverage(scale, out) > 0
  {
  }
}
