/** The native resolver (presentation/compact.rs) and the shader's fragment program
    (renderer-gpu.js) on compact presentations. */
module CompactColours {
  import opened Base
  import opened CoverageArithmetic
  import opened CompactAxis
  import opened CompactSampling

  // ---------- The resolver ----------

  ghost predicate SamplesFit(samples: seq<(int, int)>, scale: nat) {
    forall i :: 0 <= i < |samples| ==> 0 <= samples[i].0 < scale
  }

  ghost predicate SpansFit(spans: seq<Span>, cells: nat, scale: nat) {
    forall k :: 0 <= k < |spans| ==> 0 <= spans[k].cell < cells && SamplesFit(spans[k].samples, scale)
  }

  ghost predicate TileFits(source: Compact, offset: nat) {
    offset + source.scale * source.scale <= |source.detail|
  }

  /** One row of samples of a tile, weighed in both directions. */
  ghost function LineSum(source: Compact, offset: nat, sy: nat, wy: int, columns: seq<(int, int)>, c: nat): int
    requires TileFits(source, offset) && sy < source.scale && SamplesFit(columns, source.scale) && c < 3
  {
    if columns == [] then 0
    else
      var (sx, wx) := columns[|columns| - 1];
      LineSum(source, offset, sy, wy, columns[..|columns| - 1], c)
          + Channel(DetailAt(source, offset, sy, sx), c) * (wy * wx)
  }

  ghost function TileSum(source: Compact, offset: nat, rows: seq<(int, int)>, columns: seq<(int, int)>, c: nat): int
    requires TileFits(source, offset) && SamplesFit(rows, source.scale) && SamplesFit(columns, source.scale) && c < 3
  {
    if rows == [] then 0
    else
      var (sy, wy) := rows[|rows| - 1];
      TileSum(source, offset, rows[..|rows| - 1], columns, c) + LineSum(source, offset, sy, wy, columns, c)
  }

  /** A plain cell counts with its whole area, a detailed one sample by sample. */
  ghost function CellSum(source: Compact, row: Span, column: Span, c: nat): int
    requires source.Complete() && c < 3
    requires SpansFit([row], source.height, source.scale) && SpansFit([column], source.width, source.scale)
  {
    assert [row][0] == row && [column][0] == column;
    var cell := source.Cell(row.cell, column.cell);
    if cell < DETAIL_BIT then Channel(cell, c) * (row.weight * column.weight)
    else
      CellIndex(row.cell, column.cell, source.height, source.width);
      TileSum(source, Offset(cell), row.samples, column.samples, c)
  }

  ghost function RowSum(source: Compact, row: Span, columns: seq<Span>, c: nat): int
    requires source.Complete() && c < 3
    requires SpansFit([row], source.height, source.scale) && SpansFit(columns, source.width, source.scale)
  {
    if columns == [] then 0
    else
      var n := |columns| - 1;
      assert SpansFit([columns[n]], source.width, source.scale);
      RowSum(source, row, columns[..n], c) + CellSum(source, row, columns[n], c)
  }

  ghost function ImageSum(source: Compact, rows: seq<Span>, columns: seq<Span>, c: nat): int
    requires source.Complete() && c < 3
    requires SpansFit(rows, source.height, source.scale) && SpansFit(columns, source.width, source.scale)
  {
    if rows == [] then 0
    else
      var n := |rows| - 1;
      assert SpansFit([rows[n]], source.height, source.scale);
      ImageSum(source, rows[..n], columns, c) + RowSum(source, rows[n], columns, c)
  }

  function AxisTotal(source: int, dest: int): int { if source > dest then source else 1 }

  /** The spans of an output position. */
  function Spans(logical: nat, scale: nat, dest: nat, position: nat): seq<Span>
    requires logical > 0 && scale > 0 && dest > 0
  {
    assert logical * scale > 0;
    Grouped(Samples(logical * scale, dest, position), scale)
  }

  ghost predicate PositionFits(source: Compact, dw: nat, dh: nat, py: nat, px: nat) {
    && source.Complete() && dw > 0 && dh > 0
    && SpansFit(Spans(source.height, source.scale, dh, py), source.height, source.scale)
    && SpansFit(Spans(source.width, source.scale, dw, px), source.width, source.scale)
  }

  /** The weighted sum under the output pixel at (py, px) of a `dw` by `dh` image. */
  ghost function ResolvedSum(source: Compact, dw: nat, dh: nat, py: nat, px: nat, c: nat): int
    requires PositionFits(source, dw, dh, py, px) && c < 3
  {
    ImageSum(source, Spans(source.height, source.scale, dh, py), Spans(source.width, source.scale, dw, px), c)
  }

  function ResolvedTotal(source: Compact, dw: nat, dh: nat): int {
    AxisTotal(source.width * source.scale, dw) * AxisTotal(source.height * source.scale, dh)
  }

  function Quotient(sum: int, total: int): int {
    if total <= 0 then 0 else CoverageQuotient(sum + total / 2, total, (WORD64 - 1) / total, WORD64)
  }

  /** One channel of that pixel. */
  ghost function Resolved(source: Compact, dw: nat, dh: nat, py: nat, px: nat, c: nat): int
    requires PositionFits(source, dw, dh, py, px) && c < 3
  {
    Quotient(ResolvedSum(source, dw, dh, py, px, c), ResolvedTotal(source, dw, dh))
  }

  // ---------- It computes the colour ----------

  lemma {:induction false} LineIsPick(source: Compact, offset: nat, sy: nat, wy: int, columns: seq<(int, int)>, c: nat)
    requires TileFits(source, offset) && sy < source.scale && SamplesFit(columns, source.scale) && c < 3
    ensures LineSum(source, offset, sy, wy, columns, c) == wy * Pick(columns, TileRow(source, offset, sy, c))
  {
    if columns != [] {
      var n := |columns| - 1;
      LineIsPick(source, offset, sy, wy, columns[..n], c);
      var value := TileRow(source, offset, sy, c)[columns[n].0];
      LineStep(wy, Pick(columns[..n], TileRow(source, offset, sy, c)), columns[n].1, value);
    }
  }

  lemma LineStep(wy: int, sum: int, wx: int, value: nat)
    ensures wy * sum + value * (wy * wx) == wy * (sum + wx * value)
  {
    Distribute(sum, wx * value, wy);
    Swap3(wy, wx, value);
  }

  lemma Swap3(a: int, b: int, c: int)
    ensures c * (a * b) == a * (b * c)
  {
  }

  lemma {:induction false} TileIsPick(source: Compact, offset: nat, rows: seq<(int, int)>, columns: seq<(int, int)>,
                                      c: nat, f: int, shares: seq<nat>)
    requires TileFits(source, offset) && SamplesFit(rows, source.scale) && SamplesFit(columns, source.scale) && c < 3
    requires |shares| == source.scale
    requires forall sy: nat :: sy < source.scale ==> Pick(columns, TileRow(source, offset, sy, c)) == f * shares[sy]
    ensures TileSum(source, offset, rows, columns, c) == f * Pick(rows, shares)
  {
    if rows != [] {
      var n := |rows| - 1;
      TileIsPick(source, offset, rows[..n], columns, c, f, shares);
      var (sy, wy) := rows[n];
      LineIsPick(source, offset, sy, wy, columns, c);
      LineStep(f, Pick(rows[..n], shares), wy, shares[sy]);
      Swap3(f, wy, shares[sy]);
      Swap3(wy, f, shares[sy]);
    }
  }

  lemma AlignedTile(source: Compact, offset: nat, out: nat, wy: nat, wx: nat, c: nat)
    requires TileFits(source, offset) && source.scale > 0 && wy < out && wx < out && c < 3
    ensures SamplesFit(Taken(source.height, source.scale, out, wy), source.scale)
    ensures SamplesFit(Taken(source.width, source.scale, out, wx), source.scale)
    ensures TileSum(source, offset,
                    Taken(source.height, source.scale, out, wy), Taken(source.width, source.scale, out, wx), c)
         == Factor(source.width, source.scale, out)
            * (Factor(source.height, source.scale, out)
               * Share(source.scale, out, wy, RowShares(source, offset, out, wx, c)))
  {
    var rows, columns := Taken(source.height, source.scale, out, wy), Taken(source.width, source.scale, out, wx);
    TakenInTile(source.height, source.scale, out, wy);
    TakenInTile(source.width, source.scale, out, wx);
    var shares := RowShares(source, offset, out, wx, c);
    forall sy: nat | sy < source.scale
      ensures Pick(columns, TileRow(source, offset, sy, c)) == Factor(source.width, source.scale, out) * shares[sy]
    {
      TakenShare(source.width, source.scale, out, wx, TileRow(source, offset, sy, c));
    }
    TileIsPick(source, offset, rows, columns, c, Factor(source.width, source.scale, out), shares);
    TakenShare(source.height, source.scale, out, wy, shares);
  }

  lemma AlignedTotal(logical: nat, scale: nat, out: nat)
    requires logical > 0 && scale > 0
    ensures AxisTotal(logical * scale, logical * out) == Factor(logical, scale, out) * Coverage(scale, out)
  {
    Order(logical, scale, out);
  }

  /** The resolver's whole area, in the shader's units: at most sixteen per cell. */
  lemma TotalArea(source: Compact, out: nat)
    requires source.Complete()
    ensures var (fx, fy, cov) := (Factor(source.width, source.scale, out), Factor(source.height, source.scale, out),
                                  Coverage(source.scale, out));
            && 0 < fy * fx <= MAX_WORDS && 0 < cov * cov <= 16
            && (fx * cov) * (fy * cov) == (fy * fx) * (cov * cov) <= MAX_WORDS * 16
  {
    var fx, fy, cov := Factor(source.width, source.scale, out), Factor(source.height, source.scale, out),
        Coverage(source.scale, out);
    assert source.height * source.width > 0;
    assert 1 <= cov <= 4;
    MulMono(cov, 4, cov);
    Rearrange(fx, fy, cov);
    MulMono(fy * fx, MAX_WORDS, cov * cov);
  }

  lemma Rearrange(a: int, b: int, c: int)
    ensures (a * c) * (b * c) == (b * a) * (c * c)
  {
    Regroup(a, c, b * c);
    Swap(c, b, c);
    Regroup(a, b, c * c);
  }

  lemma ChannelsAreBytes(source: Compact, offset: nat, out: nat, wy: nat, wx: nat, c: nat)
    requires TileFits(source, offset) && source.scale > 0 && wy < out && wx < out && c < 3
    ensures Share(source.scale, out, wy, RowShares(source, offset, out, wx, c))
         <= 255 * (Coverage(source.scale, out) * Coverage(source.scale, out))
  {
    var shares, cov := RowShares(source, offset, out, wx, c), Coverage(source.scale, out);
    forall sy: nat | sy < source.scale ensures 0 <= shares[sy] <= 255 * cov {
      ShareBetween(source.scale, out, wx, TileRow(source, offset, sy, c), 0, 255);
    }
    ShareBetween(source.scale, out, wy, shares, 0, 255 * cov);
    Regroup(255, cov, cov);
  }

  lemma ExactQuotient(sum: nat, total: nat)
    requires 0 < total <= MAX_WORDS * 16 && sum <= 255 * total
    ensures Quotient(sum, total) == RoundedAverage(sum, total)
  {
    QuotientIsExact(sum + total / 2, total, WORD64);
  }

  /** The only span of an output position, and it lies in the image. */
  lemma AlignedAxis(logical: nat, scale: nat, out: nat, p: nat, span: Span)
    requires logical > 0 && scale > 0 && out > 0 && p < logical * out
    requires span
          == Span(p / out, Factor(logical, scale, out) * Coverage(scale, out), Taken(logical, scale, out, p % out))
    ensures Spans(logical, scale, logical * out, p) == [span]
    ensures SpansFit([span], logical, scale)
  {
    InCell(p, logical, out);
    AlignedSpan(logical, scale, out, p / out, p % out);
    TakenInTile(logical, scale, out, p % out);
  }

  lemma OneSpanEach(source: Compact, row: Span, column: Span, c: nat)
    requires source.Complete() && c < 3
    requires SpansFit([row], source.height, source.scale) && SpansFit([column], source.width, source.scale)
    ensures ImageSum(source, [row], [column], c) == CellSum(source, row, column, c)
  {
    assert [row][..0] == [] && [column][..0] == [];
    assert RowSum(source, row, [column], c) == RowSum(source, row, [], c) + CellSum(source, row, column, c);
    assert ImageSum(source, [row], [column], c) == ImageSum(source, [], [column], c) + RowSum(source, row, [column], c);
  }

  lemma PlainColour(channel: nat, total: nat)
    requires total > 0
    ensures RoundedAverage(channel * total, total) == channel
  {
    AverageIsBetween(channel * total, total, channel, channel);
  }

  lemma TileAverage(sum: int, share: nat, area: nat, n: nat, total: nat)
    requires area > 0 && n > 0 && 0 < total == n * area && share <= 255 * area && sum == n * share
    ensures 0 <= sum <= 255 * total && RoundedAverage(sum, total) == RoundedAverage(share, area)
  {
    RoundingScales(share, area, n);
    MulMono(share, 255 * area, n);
    Regroup(255, area, n);
    MulMono(0, share, n);
  }

  lemma PlainCell(source: Compact, row: Span, column: Span, c: nat, sum: int, total: nat)
    requires source.Complete() && c < 3
    requires SpansFit([row], source.height, source.scale) && SpansFit([column], source.width, source.scale)
    requires 0 <= row.cell < source.height && 0 <= column.cell < source.width
    requires source.Cell(row.cell, column.cell) < DETAIL_BIT
    requires 0 < total == column.weight * row.weight && sum == CellSum(source, row, column, c)
    ensures 0 <= sum <= 255 * total && RoundedAverage(sum, total) == Channel(source.Cell(row.cell, column.cell), c)
  {
    var channel := Channel(source.Cell(row.cell, column.cell), c);
    assert row.weight * column.weight == column.weight * row.weight;
    MulMono(channel, 255, total);
    MulMono(0, channel, total);
    PlainColour(channel, total);
  }

  lemma DetailCell(source: Compact, row: Span, column: Span, out: nat, wy: nat, wx: nat, c: nat, offset: nat,
                   share: nat, n: nat, area: nat, sum: int, total: nat)
    requires source.Complete() && c < 3 && wy < out && wx < out
    requires SpansFit([row], source.height, source.scale) && SpansFit([column], source.width, source.scale)
    requires 0 <= row.cell < source.height && 0 <= column.cell < source.width
    requires row.samples == Taken(source.height, source.scale, out, wy)
             && column.samples == Taken(source.width, source.scale, out, wx)
    requires source.Cell(row.cell, column.cell) >= DETAIL_BIT && offset == Offset(source.Cell(row.cell, column.cell))
    requires TileFits(source, offset) && share == Share(source.scale, out, wy, RowShares(source, offset, out, wx, c))
    requires n == Factor(source.height, source.scale, out) * Factor(source.width, source.scale, out) > 0
    requires area == Coverage(source.scale, out) * Coverage(source.scale, out) > 0
    requires 0 < total == n * area && sum == CellSum(source, row, column, c)
    ensures 0 <= sum <= 255 * total && RoundedAverage(sum, total) == RoundedAverage(share, area)
  {
    AlignedTile(source, offset, out, wy, wx, c);
    ChannelsAreBytes(source, offset, out, wy, wx, c);
    FactorsFirst(Factor(source.width, source.scale, out), Factor(source.height, source.scale, out), share);
    TileAverage(sum, share, area, n, total);
  }

  lemma FactorsFirst(a: int, b: int, c: int)
    ensures a * (b * c) == b * a * c
  {
  }

  lemma Products(source: Compact, out: nat, rowWeight: int, columnWeight: int) returns (n: nat, area: nat, total: nat)
    requires source.Complete()
    requires rowWeight == Factor(source.height, source.scale, out) * Coverage(source.scale, out)
    requires columnWeight == Factor(source.width, source.scale, out) * Coverage(source.scale, out)
    ensures n == Factor(source.height, source.scale, out) * Factor(source.width, source.scale, out) > 0
    ensures area == Coverage(source.scale, out) * Coverage(source.scale, out) > 0
    ensures 0 < total == n * area == columnWeight * rowWeight <= MAX_WORDS * 16
  {
    TotalArea(source, out);
    n := Factor(source.height, source.scale, out) * Factor(source.width, source.scale, out);
    area := Coverage(source.scale, out) * Coverage(source.scale, out);
    total := n * area;
    assert n * area > 0;
  }

  lemma CellAverage(source: Compact, row: Span, column: Span, out: nat, wy: nat, wx: nat, c: nat,
                    n: nat, area: nat, sum: int, total: nat)
    requires source.Complete() && wy < out && wx < out && c < 3
    requires 0 <= row.cell < source.height && row.samples == Taken(source.height, source.scale, out, wy)
    requires 0 <= column.cell < source.width && column.samples == Taken(source.width, source.scale, out, wx)
    requires SpansFit([row], source.height, source.scale) && SpansFit([column], source.width, source.scale)
    requires n == Factor(source.height, source.scale, out) * Factor(source.width, source.scale, out) > 0
    requires area == Coverage(source.scale, out) * Coverage(source.scale, out) > 0
    requires 0 < total == n * area == column.weight * row.weight && sum == CellSum(source, row, column, c)
    ensures 0 <= sum <= 255 * total
    ensures RoundedAverage(sum, total) == PixelColour(source, out, row.cell, column.cell, wy, wx, c)
  {
    var cell := source.Cell(row.cell, column.cell);
    if cell < DETAIL_BIT {
      PlainCell(source, row, column, c, sum, total);
    } else {
      CellIndex(row.cell, column.cell, source.height, source.width);
      var share := Share(source.scale, out, wy, RowShares(source, Offset(cell), out, wx, c));
      DetailCell(source, row, column, out, wy, wx, c, Offset(cell), share, n, area, sum, total);
    }
  }

  lemma AlignedSum(source: Compact, out: nat, cy: nat, cx: nat, wy: nat, wx: nat, c: nat, row: Span, column: Span,
                   sum: int, total: nat)
    requires source.Complete() && cy < source.height && cx < source.width && wy < out && wx < out && c < 3
    requires row
             == Span(cy, Factor(source.height, source.scale, out) * Coverage(source.scale, out),
                     Taken(source.height, source.scale, out, wy))
    requires column
             == Span(cx, Factor(source.width, source.scale, out) * Coverage(source.scale, out),
                     Taken(source.width, source.scale, out, wx))
    requires SpansFit([row], source.height, source.scale) && SpansFit([column], source.width, source.scale)
    requires sum == ImageSum(source, [row], [column], c) && total == column.weight * row.weight
    ensures total > 0
    ensures Quotient(sum, total) == PixelColour(source, out, cy, cx, wy, wx, c)
  {
    OneSpanEach(source, row, column, c);
    var n, area, total' := Products(source, out, row.weight, column.weight);
    CellAverage(source, row, column, out, wy, wx, c, n, area, sum, total);
    ExactQuotient(sum, total);
  }

  /** Where an output pixel falls. */
  lemma AlignedPlace(source: Compact, out: nat, dw: nat, dh: nat, py: nat, px: nat, c: nat, row: Span, column: Span)
    requires source.Complete() && out > 0 && dw == source.width * out && dh == source.height * out
    requires py < dh && px < dw && c < 3
    requires row == Span(py / out, Factor(source.height, source.scale, out) * Coverage(source.scale, out),
                         Taken(source.height, source.scale, out, py % out))
    requires column == Span(px / out, Factor(source.width, source.scale, out) * Coverage(source.scale, out),
                            Taken(source.width, source.scale, out, px % out))
    ensures SpansFit([row], source.height, source.scale) && SpansFit([column], source.width, source.scale)
    ensures PositionFits(source, dw, dh, py, px)
    ensures ResolvedSum(source, dw, dh, py, px, c) == ImageSum(source, [row], [column], c)
    ensures ResolvedTotal(source, dw, dh) == column.weight * row.weight
  {
    AlignedAxis(source.height, source.scale, out, py, row);
    AlignedAxis(source.width, source.scale, out, px, column);
    AlignedTotal(source.width, source.scale, out);
    AlignedTotal(source.height, source.scale, out);
  }

  lemma ColourIs(source: Compact, out: nat, py: nat, px: nat, c: nat, cy: nat, cx: nat, wy: nat, wx: nat)
    requires source.Complete() && out > 0 && py < source.height * out && px < source.width * out && c < 3
    requires cy == py / out && cx == px / out && wy == py % out && wx == px % out
    ensures cy < source.height && cx < source.width && wy < out && wx < out
    ensures Colour(source, out, py, px, c) == PixelColour(source, out, cy, cx, wy, wx, c)
  {
    InCell(py, source.height, out);
    InCell(px, source.width, out);
  }

  /** What the resolver adds up there. */
  lemma AlignedPosition(source: Compact, out: nat, dw: nat, dh: nat, py: nat, px: nat, c: nat)
    returns (sum: int, total: int)
    requires source.Complete() && out > 0 && dw == source.width * out && dh == source.height * out
    requires py < dh && px < dw && c < 3
    ensures PositionFits(source, dw, dh, py, px)
    ensures sum == ResolvedSum(source, dw, dh, py, px, c) && total == ResolvedTotal(source, dw, dh)
    ensures Quotient(sum, total) == Colour(source, out, py, px, c)
  {
    var cy, cx, wy, wx := py / out, px / out, py % out, px % out;
    var row := Span(cy, Factor(source.height, source.scale, out) * Coverage(source.scale, out),
                    Taken(source.height, source.scale, out, wy));
    var column := Span(cx, Factor(source.width, source.scale, out) * Coverage(source.scale, out),
                       Taken(source.width, source.scale, out, wx));
    AlignedPlace(source, out, dw, dh, py, px, c, row, column);
    ColourIs(source, out, py, px, c, cy, cx, wy, wx);
    sum, total := ImageSum(source, [row], [column], c), column.weight * row.weight;
    AlignedSum(source, out, cy, cx, wy, wx, c, row, column, sum, total);
  }

  lemma ResolvedIs(source: Compact, dw: nat, dh: nat, py: nat, px: nat, c: nat, sum: int, total: int)
    requires PositionFits(source, dw, dh, py, px) && c < 3
    requires sum == ResolvedSum(source, dw, dh, py, px, c) && total == ResolvedTotal(source, dw, dh)
    ensures Resolved(source, dw, dh, py, px, c) == Quotient(sum, total)
  {
  }

  /** At every whole output scale the resolver yields exactly the colour the shader is for. */
  lemma ResolverYieldsColour(source: Compact, out: nat, dw: nat, dh: nat, py: nat, px: nat, c: nat)
    requires source.Complete() && out > 0 && dw == source.width * out && dh == source.height * out
    requires py < dh && px < dw && c < 3
    ensures PositionFits(source, dw, dh, py, px)
    ensures Resolved(source, dw, dh, py, px, c) == Colour(source, out, py, px, c)
  {
    var sum, total := AlignedPosition(source, out, dw, dh, py, px, c);
    ResolvedIs(source, dw, dh, py, px, c, sum, total);
  }

  /** A colour lies between the least and the greatest sample of its tile, so equal samples are kept. */
  lemma ColourBetween(source: Compact, out: nat, cy: nat, cx: nat, wy: nat, wx: nat, c: nat, offset: nat, lo: nat,
                      hi: nat)
    requires source.Complete() && cy < source.height && cx < source.width && wy < out && wx < out && c < 3
    requires source.Cell(cy, cx) >= DETAIL_BIT && offset == Offset(source.Cell(cy, cx)) && TileFits(source, offset)
    requires forall sy: nat, sx: nat :: sy < source.scale && sx < source.scale ==>
               lo <= Channel(DetailAt(source, offset, sy, sx), c) <= hi
    ensures lo <= PixelColour(source, out, cy, cx, wy, wx, c) <= hi
  {
    var cov, shares := Coverage(source.scale, out), RowShares(source, offset, out, wx, c);
    forall sy: nat | sy < source.scale ensures lo * cov <= shares[sy] <= hi * cov {
      ShareBetween(source.scale, out, wx, TileRow(source, offset, sy, c), lo, hi);
    }
    AverageOfShares(source.scale, out, wy, shares, lo, hi);
  }

  lemma AverageOfShares(scale: nat, out: nat, wy: nat, shares: seq<nat>, lo: nat, hi: nat)
    requires scale == |shares| > 0 && wy < out
    requires forall sy :: 0 <= sy < scale ==> lo * Coverage(scale, out) <= shares[sy] <= hi * Coverage(scale, out)
    ensures Coverage(scale, out) * Coverage(scale, out) > 0
    ensures lo <= RoundedAverage(Share(scale, out, wy, shares), Coverage(scale, out) * Coverage(scale, out)) <= hi
  {
    var cov := Coverage(scale, out);
    ShareBetween(scale, out, wy, shares, lo * cov, hi * cov);
    Regroup(lo, cov, cov);
    Regroup(hi, cov, cov);
    CoveragePositive(scale, out);
    AverageIsBetween(Share(scale, out, wy, shares), cov * cov, lo, hi);
  }

  // ---------- The shader ----------

  /** One sample of a tile, from the detail texture. */
  method CompactSample(t: Texture, ghost source: Compact, offset: nat, scale: nat, sy: nat, sx: nat)
    returns (word: Word)
    requires Holds(t, source.detail) && scale == source.scale && sy < scale && sx < scale && TileFits(source, offset)
    ensures word == DetailAt(source, offset, sy, sx)
  {
    SampleIndex(source, offset, sy, sx);
    var index: nat := offset + sy * scale + sx;
    assert t.Has(index, source.detail[index]);
    word := t.texels[index / t.width][index % t.width];
  }

  /** Cell and place inside it of one output coordinate. */
  method Locate(p: nat, cells: nat, out: nat) returns (cell: nat, within: nat)
    requires out > 0 && p < cells * out
    ensures cell == p / out < cells && within == p % out < out
  {
    InCell(p, cells, out);
    cell := p / out;
    within := p - cell * out;
  }

  /** The shader's colour, one channel: exactly the resolver's. Its arithmetic on small whole
      numbers is exact. */
  method CompactColour(t: Texture, source: Compact, out: nat, py: nat, px: nat, c: nat) returns (value: nat)
    requires source.Complete() && Holds(t, source.detail)
    requires 1 <= out <= 4 && py < source.height * out && px < source.width * out && c < 3
    ensures value == Colour(source, out, py, px, c)
  {
    var cy, wy := Locate(py, source.height, out);
    var cx, wx := Locate(px, source.width, out);
    value := CompactPixel(t, source, out, cy, cx, wy, wx, c);
  }

  method CompactPixel(t: Texture, source: Compact, out: nat, cy: nat, cx: nat, wy: nat, wx: nat, c: nat)
    returns (value: nat)
    requires source.Complete() && Holds(t, source.detail)
    requires cy < source.height && cx < source.width && wy < out && wx < out && c < 3
    ensures value == PixelColour(source, out, cy, cx, wy, wx, c)
  {
    var cell := source.Cell(cy, cx);
    if cell < DETAIL_BIT {
      return Channel(cell, c);
    }
    OffsetFitsThreeBytes(source, cy, cx);
    CellIndex(cy, cx, source.height, source.width);
    var offset := Channel(cell, 0) + Channel(cell, 1) * 256 + Channel(cell, 2) * 65536;
    value := TileColour(t, source, offset, out, wy, wx, c);
  }

  method TileColour(t: Texture, source: Compact, offset: nat, out: nat, wy: nat, wx: nat, c: nat) returns (value: nat)
    requires Holds(t, source.detail) && TileFits(source, offset) && 1 <= source.scale <= 4
    requires c < 3 && wy < out && wx < out
    ensures Coverage(source.scale, out) * Coverage(source.scale, out) > 0
    ensures value == RoundedAverage(Share(source.scale, out, wy, RowShares(source, offset, out, wx, c)),
                                    Coverage(source.scale, out) * Coverage(source.scale, out))
  {
    CoveragePositive(source.scale, out);
    if source.scale <= out {
      value := PickMiddle(t, source, offset, out, wy, wx, c);
      PlainColour(value, 1);
    } else {
      var sum := WeighTile(t, source, offset, out, wy, wx, c);
      value := RoundedAverage(sum, source.scale * source.scale);
    }
  }

  method PickMiddle(t: Texture, source: Compact, offset: nat, out: nat, wy: nat, wx: nat, c: nat) returns (value: nat)
    requires Holds(t, source.detail) && TileFits(source, offset) && 1 <= source.scale <= out && c < 3
    requires wy < out && wx < out
    ensures value == Share(source.scale, out, wy, RowShares(source, offset, out, wx, c))
  {
    var scale := source.scale;
    MiddleInTile(wy, scale, out);
    MiddleInTile(wx, scale, out);
    var sy, sx := Min(Middle(wy, scale, out), scale - 1), Min(Middle(wx, scale, out), scale - 1);
    var word := CompactSample(t, source, offset, scale, sy, sx);
    value := Channel(word, c);
  }

  ghost function Dot(weights: seq<nat>, values: seq<nat>, n: nat): nat
    requires n <= |weights| == |values|
  {
    if n == 0 then 0 else Dot(weights, values, n - 1) + weights[n - 1] * values[n - 1]
  }

  lemma {:induction false} DotIsFootprint(weights: seq<nat>, w: nat, scale: nat, out: nat, values: seq<nat>, n: nat)
    requires n <= |weights| == |values| && Weighs(weights, w, scale, out)
    ensures Dot(weights, values, n) == Footprint(w, scale, out, values, 0, n)
  {
    if n > 0 {
      DotIsFootprint(weights, w, scale, out, values, n - 1);
    }
  }

  /** The overlaps of one output pixel with each sample. */
  ghost predicate Weighs(weights: seq<nat>, w: nat, scale: nat, out: nat) {
    |weights| == scale
    && forall k {:trigger Overlap(w, k, scale, out)} :: 0 <= k < |weights| ==> weights[k] == Overlap(w, k, scale, out)
  }

  ghost function Overlaps(w: nat, scale: nat, out: nat): (weights: seq<nat>)
    ensures Weighs(weights, w, scale, out)
  {
    seq(scale, k requires 0 <= k < scale => Overlap(w, k, scale, out))
  }

  method WeightOf(w: nat, k: nat, scale: nat, out: nat, ghost weights: seq<nat>) returns (weight: nat)
    requires k < scale && Weighs(weights, w, scale, out)
    ensures weight == weights[k]
  {
    weight := Max(Min((w + 1) * scale, (k + 1) * out) - Max(w * scale, k * out), 0);
    assert weight == Overlap(w, k, scale, out);
  }

  /** One channel of one row of the tile. */
  ghost predicate RowIs(row: seq<nat>, source: Compact, offset: nat, sy: nat, c: nat)
    requires TileFits(source, offset) && sy < source.scale && c < 3
  {
    |row| == source.scale
    && forall sx: nat {:trigger DetailAt(source, offset, sy, sx)} ::
         sx < source.scale ==> row[sx] == Channel(DetailAt(source, offset, sy, sx), c)
  }

  method SampleChannel(t: Texture, source: Compact, offset: nat, sy: nat, sx: nat, c: nat, ghost row: seq<nat>)
    returns (value: nat)
    requires Holds(t, source.detail) && TileFits(source, offset) && sy < source.scale && sx < source.scale && c < 3
    requires RowIs(row, source, offset, sy, c)
    ensures value == row[sx]
  {
    var word := CompactSample(t, source, offset, source.scale, sy, sx);
    value := Channel(word, c);
  }

  method WeighTile(t: Texture, source: Compact, offset: nat, out: nat, wy: nat, wx: nat, c: nat) returns (sum: nat)
    requires Holds(t, source.detail) && TileFits(source, offset) && 1 <= source.scale <= 4 && c < 3
    requires out < source.scale && wy < out && wx < out
    ensures sum == Share(source.scale, out, wy, RowShares(source, offset, out, wx, c))
  {
    ghost var scale, shares := source.scale, RowShares(source, offset, out, wx, c);
    ghost var across, down := Overlaps(wx, scale, out), Overlaps(wy, scale, out);
    ghost var rows := seq(scale, y requires 0 <= y < scale => TileRow(source, offset, y, c));
    forall y | 0 <= y < scale ensures shares[y] == Dot(across, rows[y], scale) {
      DotIsFootprint(across, wx, scale, out, rows[y], scale);
    }
    DotIsFootprint(down, wy, scale, out, shares, scale);
    sum := WeighRows(t, source, offset, out, wy, wx, c, across, down, rows, shares);
  }

  /** The double loop over the tile; samples beyond the scale are skipped. */
  method WeighRows(t: Texture, source: Compact, offset: nat, out: nat, wy: nat, wx: nat, c: nat,
                   ghost across: seq<nat>, ghost down: seq<nat>, ghost rows: seq<seq<nat>>, ghost shares: seq<nat>)
    returns (sum: nat)
    requires Holds(t, source.detail) && TileFits(source, offset) && 1 <= source.scale <= 4 && c < 3
    requires Weighs(across, wx, source.scale, out) && Weighs(down, wy, source.scale, out)
    requires |shares| == |rows| == source.scale && forall y :: 0 <= y < |rows| ==> RowIs(rows[y], source, offset, y, c)
    requires forall y :: 0 <= y < |rows| ==>
               |rows[y]| == source.scale && shares[y] == Dot(across, rows[y], source.scale)
    ensures sum == Dot(down, shares, source.scale)
  {
    sum := 0;
    for y: nat := 0 to 4
      invariant sum == Dot(down, shares, Min(y, source.scale))
    {
      if y < source.scale {
        var weight := WeightOf(wy, y, source.scale, out, down);
        sum := WeighRow(t, source, offset, out, y, weight, wx, c, sum, across, rows[y]);
      }
    }
  }

  method WeighRow(t: Texture, source: Compact, offset: nat, out: nat, y: nat, weight: nat, wx: nat, c: nat, before: nat,
                  ghost across: seq<nat>, ghost row: seq<nat>)
    returns (sum: nat)
    requires Holds(t, source.detail) && TileFits(source, offset) && 1 <= source.scale <= 4 && c < 3
    requires y < source.scale && Weighs(across, wx, source.scale, out) && RowIs(row, source, offset, y, c)
    ensures sum == before + weight * Dot(across, row, source.scale)
  {
    sum := before;
    ghost var dot := 0;
    for x: nat := 0 to 4
      invariant dot == Dot(across, row, Min(x, source.scale)) && sum == before + weight * dot
    {
      if x < source.scale {
        var value := SampleChannel(t, source, offset, y, x, c, row);
        var wide := WeightOf(wx, x, source.scale, out, across);
        sum := WeighOne(sum, before, dot, value, wide, weight);
        dot := dot + wide * value;
      }
    }
  }

  method WeighOne(sum: nat, ghost before: nat, ghost dot: nat, value: nat, wx: nat, wy: nat) returns (now: nat)
    requires sum == before + wy * dot
    ensures now == before + wy * (dot + wx * value)
  {
    Distribute(dot, wx * value, wy);
    now := sum + value * wx * wy;
  }

  lemma PixelIsByte(source: Compact, out: nat, cy: nat, cx: nat, wy: nat, wx: nat, c: nat)
    requires source.Complete() && cy < source.height && cx < source.width && wy < out && wx < out && c < 3
    ensures PixelColour(source, out, cy, cx, wy, wx, c) < 256
  {
    var cell := source.Cell(cy, cx);
    CellIndex(cy, cx, source.height, source.width);
    if cell >= DETAIL_BIT {
      ColourBetween(source, out, cy, cx, wy, wx, c, Offset(cell), 0, 255);
    }
  }

  /** A frame the validator accepts shows on the GPU what the native resolver computes. */
  lemma ShaderMatchesResolver(source: Compact, w: nat, h: nat, maxTexture: nat, out: nat, py: nat, px: nat, c: nat)
    requires Acceptable(source, w, h, maxTexture, out) && py < h && px < w && c < 3
    ensures PositionFits(source, w, h, py, px)
    ensures Colour(source, out, py, px, c) == Resolved(source, w, h, py, px, c)
  {
    ResolverYieldsColour(source, out, w, h, py, px, c);
  }

  // ---------- From packet to pixels ----------

  /** Red, green and blue of a word of the packet. */
  predicate IsColourOf(pixel: (nat, nat, nat), word: Word) {
    pixel == (word / 65536 % 256, word / 256 % 256, word % 256)
  }

  /** A pixel shows word `k` of the cells if that is plain, else word `j` of the tile it refers to. */
  ghost predicate ShowsWord(source: Compact, k: int, j: int, pixel: (nat, nat, nat)) {
    && 0 <= k < |source.cells|
    && if source.cells[k] < 0x8000_0000 then IsColourOf(pixel, source.cells[k])
       else
         var i := source.cells[k] - 0x8000_0000 + j;
         0 <= i < |source.detail| && IsColourOf(pixel, source.detail[i])
  }

  lemma NearestPixel(source: Compact, out: nat, cy: nat, cx: nat, wy: nat, wx: nat, c: nat, y: nat, x: nat)
    requires source.Complete() && source.scale <= out && cy < source.height && cx < source.width && wy < out && wx < out
    requires c < 3 && y == Middle(wy, source.scale, out) && x == Middle(wx, source.scale, out)
    ensures y < source.scale && x < source.scale
    ensures var cell := source.Cell(cy, cx);
            if cell < DETAIL_BIT then PixelColour(source, out, cy, cx, wy, wx, c) == Channel(cell, c)
            else TileFits(source, Offset(cell))
                 && PixelColour(source, out, cy, cx, wy, wx, c) == Channel(DetailAt(source, Offset(cell), y, x), c)
  {
    MiddleInTile(wy, source.scale, out);
    MiddleInTile(wx, source.scale, out);
    var cell := source.Cell(cy, cx);
    CellIndex(cy, cx, source.height, source.width);
    if cell >= DETAIL_BIT {
      PlainColour(Channel(DetailAt(source, Offset(cell), y, x), c), 1);
    }
  }

  /** The three channels of an output pixel of a cell. */
  ghost predicate PixelIs(source: Compact, out: nat, cy: nat, cx: nat, wy: nat, wx: nat, pixel: (nat, nat, nat)) {
    && source.Complete() && cy < source.height && cx < source.width && wy < out && wx < out
    && pixel.0 == PixelColour(source, out, cy, cx, wy, wx, 2) && pixel.1 == PixelColour(source, out, cy, cx, wy, wx, 1)
    && pixel.2 == PixelColour(source, out, cy, cx, wy, wx, 0)
  }

  lemma PlainWord(source: Compact, cy: nat, cx: nat, j: int, pixel: (nat, nat, nat))
    requires source.Complete() && cy < source.height && cx < source.width && source.Cell(cy, cx) < DETAIL_BIT
    requires IsColourOf(pixel, source.Cell(cy, cx))
    ensures ShowsWord(source, cy * source.width + cx, j, pixel)
  {
    CellIndex(cy, cx, source.height, source.width);
  }

  lemma DetailWord(source: Compact, cy: nat, cx: nat, y: nat, x: nat, pixel: (nat, nat, nat))
    requires source.Complete() && cy < source.height && cx < source.width && source.Cell(cy, cx) >= DETAIL_BIT
    requires TileFits(source, Offset(source.Cell(cy, cx))) && y < source.scale && x < source.scale
    requires IsColourOf(pixel, DetailAt(source, Offset(source.Cell(cy, cx)), y, x))
    ensures ShowsWord(source, cy * source.width + cx, y * source.scale + x, pixel)
  {
    CellIndex(cy, cx, source.height, source.width);
    SampleIndex(source, Offset(source.Cell(cy, cx)), y, x);
  }

  lemma NearestWord(source: Compact, out: nat, cy: nat, cx: nat, wy: nat, wx: nat, y: nat, x: nat,
                    pixel: (nat, nat, nat))
    requires PixelIs(source, out, cy, cx, wy, wx, pixel) && source.scale <= out
    requires y == Middle(wy, source.scale, out) && x == Middle(wx, source.scale, out)
    ensures ShowsWord(source, cy * source.width + cx, y * source.scale + x, pixel)
  {
    NearestPixel(source, out, cy, cx, wy, wx, 0, y, x);
    NearestPixel(source, out, cy, cx, wy, wx, 1, y, x);
    NearestPixel(source, out, cy, cx, wy, wx, 2, y, x);
    if source.Cell(cy, cx) < DETAIL_BIT {
      PlainWord(source, cy, cx, y * source.scale + x, pixel);
    } else {
      DetailWord(source, cy, cx, y, x, pixel);
    }
  }

  lemma ColourIsPixel(source: Compact, w: nat, h: nat, out: nat, py: nat, px: nat, cy: nat, cx: nat, wy: nat, wx: nat,
                      c: nat)
    requires source.Complete() && out > 0 && w == source.width * out && h == source.height * out
    requires py < h && px < w && c < 3
    requires cy == py / out && cx == px / out && wy == py % out && wx == px % out
    ensures cy < source.height && cx < source.width && wy < out && wx < out && PositionFits(source, w, h, py, px)
    ensures Resolved(source, w, h, py, px, c) == PixelColour(source, out, cy, cx, wy, wx, c)
  {
    InCell(py, source.height, out);
    InCell(px, source.width, out);
    ResolverYieldsColour(source, out, w, h, py, px, c);
  }

  lemma ShownIsPixel(source: Compact, w: nat, h: nat, out: nat, py: nat, px: nat, cy: nat, cx: nat, wy: nat, wx: nat,
                     pixel: (nat, nat, nat))
    requires source.Complete() && out > 0 && w == source.width * out && h == source.height * out
    requires py < h && px < w && PixelShown(source, w, h, py, px, pixel)
    requires cy == py / out && cx == px / out && wy == py % out && wx == px % out
    ensures PixelIs(source, out, cy, cx, wy, wx, pixel)
  {
    ColourIsPixel(source, w, h, out, py, px, cy, cx, wy, wx, 0);
    ColourIsPixel(source, w, h, out, py, px, cy, cx, wy, wx, 1);
    ColourIsPixel(source, w, h, out, py, px, cy, cx, wy, wx, 2);
  }

  /** Enlarged, a detailed cell shows the nearest of its samples. */
  lemma NearestShown(source: Compact, w: nat, h: nat, out: nat, py: nat, px: nat, cy: nat, cx: nat, wy: nat, wx: nat,
                     y: nat, x: nat, pixel: (nat, nat, nat))
    requires source.Complete() && source.scale <= out && w == source.width * out && h == source.height * out
    requires py < h && px < w && PixelShown(source, w, h, py, px, pixel)
    requires cy == py / out && cx == px / out && wy == py % out && wx == px % out
    requires y == (2 * wy + 1) * source.scale / (2 * out) && x == (2 * wx + 1) * source.scale / (2 * out)
    ensures ShowsWord(source, cy * source.width + cx, y * source.scale + x, pixel)
  {
    ShownIsPixel(source, w, h, out, py, px, cy, cx, wy, wx, pixel);
    NearestWord(source, out, cy, cx, wy, wx, y, x, pixel);
  }

  lemma MiddleAtScale(scale: nat, w: nat)
    requires w < scale
    ensures (2 * w + 1) * scale / (2 * scale) == w
  {
    QuotientIs((2 * w + 1) * scale, 2 * scale, w);
  }

  /** Shown at its own scale, a detailed cell shows its samples one by one, row by row. */
  lemma SamplesShown(source: Compact, w: nat, h: nat, scale: nat, py: nat, px: nat, pixel: (nat, nat, nat))
    requires source.Complete() && scale == source.scale && w == source.width * scale && h == source.height * scale
    requires py < h && px < w && PixelShown(source, w, h, py, px, pixel)
    ensures ShowsWord(source, py / scale * source.width + px / scale, py % scale * scale + px % scale, pixel)
  {
    MiddleAtScale(scale, py % scale);
    MiddleAtScale(scale, px % scale);
    NearestShown(source, w, h, scale, py, px, py / scale, px / scale, py % scale, px % scale,
                 py % scale, px % scale, pixel);
  }

  /** In units in which a sample and an output pixel have whole sizes: what they have in common. */
  function Common(w: nat, k: nat, scale: nat, out: nat): nat {
    Max(Min((w + 1) * scale, (k + 1) * out) - Max(w * scale, k * out), 0)
  }

  /** The first `n` values, each weighed by what it has in common with the pixel. */
  ghost function Weighted(values: seq<nat>, w: nat, scale: nat, out: nat, n: nat): nat
    requires n <= |values|
  {
    if n == 0 then 0 else Weighted(values, w, scale, out, n - 1) + Common(w, n - 1, scale, out) * values[n - 1]
  }

  lemma {:induction false} WeightedIsFootprint(values: seq<nat>, w: nat, scale: nat, out: nat, n: nat)
    requires n <= |values|
    ensures Weighted(values, w, scale, out, n) == Footprint(w, scale, out, values, 0, n)
  {
    if n > 0 {
      WeightedIsFootprint(values, w, scale, out, n - 1);
      assert Common(w, n - 1, scale, out) == Overlap(w, n - 1, scale, out);
    }
  }

  /** One channel of some words. */
  function Channels(words: seq<Word>, c: nat): (values: seq<nat>)
    requires c < 3
    ensures |values| == |words|
  {
    seq(|words|, k requires 0 <= k < |words| => Channel(words[k], c))
  }

  /** Row `y` of the tile at `base`. */
  function TileLine(detail: seq<Word>, base: nat, scale: nat, y: nat): (line: seq<Word>)
    requires base + scale * scale <= |detail| && y < scale
    ensures |line| == scale
  {
    RowsFit(y, scale, scale);
    detail[base + y * scale..base + y * scale + scale]
  }

  lemma TileLineIs(source: Compact, base: nat, y: nat, c: nat)
    requires TileFits(source, base) && y < source.scale && c < 3
    ensures TileRow(source, base, y, c) == Channels(TileLine(source.detail, base, source.scale, y), c)
  {
    var row, line := TileRow(source, base, y, c), TileLine(source.detail, base, source.scale, y);
    forall x: nat | x < source.scale ensures row[x] == Channels(line, c)[x] {
      RowsFit(y, source.scale, source.scale);
      SampleIndex(source, base, y, x);
      assert line[x] == DetailAt(source, base, y, x);
    }
    assert row == Channels(line, c);
  }

  /** What a column of output pixels has in common with each row of a tile. */
  ghost function LineSums(detail: seq<Word>, base: nat, scale: nat, out: nat, w: nat, c: nat): (sums: seq<nat>)
    requires base + scale * scale <= |detail| && c < 3
    ensures |sums| == scale
  {
    seq(scale,
        y requires 0 <= y < scale => Weighted(Channels(TileLine(detail, base, scale, y), c), w, scale, out, scale))
  }

  lemma SharesAre(source: Compact, base: nat, out: nat, wx: nat, c: nat)
    requires TileFits(source, base) && out < source.scale && wx < out && c < 3
    ensures RowShares(source, base, out, wx, c) == LineSums(source.detail, base, source.scale, out, wx, c)
  {
    var left := RowShares(source, base, out, wx, c);
    var right := LineSums(source.detail, base, source.scale, out, wx, c);
    forall y: nat | y < source.scale ensures left[y] == right[y] {
      TileLineIs(source, base, y, c);
      WeightedIsFootprint(TileRow(source, base, y, c), wx, source.scale, out, source.scale);
      assert left[y] == Share(source.scale, out, wx, TileRow(source, base, y, c));
    }
    assert left == right;
  }

  /** The average by area, rounded, of the samples of a tile under output pixel (wy, wx) of its cell. */
  ghost function AreaAverage(detail: seq<Word>, base: nat, scale: nat, out: nat, wy: nat, wx: nat, c: nat): int
    requires base + scale * scale <= |detail| && c < 3
  {
    Rounded(Weighted(LineSums(detail, base, scale, out, wx, c), wy, scale, out, scale), scale * scale)
  }

  function Rounded(sum: int, area: int): int { if area > 0 then (sum + area / 2) / area else 0 }

  lemma AverageIs(detail: seq<Word>, base: nat, scale: nat, out: nat, wy: nat, wx: nat, c: nat, sums: seq<nat>,
                  area: nat)
    requires base + scale * scale <= |detail| && c < 3
    requires sums == LineSums(detail, base, scale, out, wx, c) && area == scale * scale > 0
    ensures RoundedAverage(Footprint(wy, scale, out, sums, 0, scale), area)
         == AreaAverage(detail, base, scale, out, wy, wx, c)
  {
    WeightedIsFootprint(sums, wy, scale, out, scale);
  }

  lemma DetailAverage(source: Compact, out: nat, cy: nat, cx: nat, wy: nat, wx: nat, c: nat, base: nat, sums: seq<nat>)
    requires source.Complete() && out < source.scale && cy < source.height && cx < source.width && wy < out && wx < out
    requires c < 3 && source.Cell(cy, cx) == DETAIL_BIT + base
    requires TileFits(source, base) && sums == RowShares(source, base, out, wx, c)
    ensures source.scale * source.scale > 0
    ensures PixelColour(source, out, cy, cx, wy, wx, c)
         == RoundedAverage(Footprint(wy, source.scale, out, sums, 0, source.scale), source.scale * source.scale)
  {
    assert Offset(source.Cell(cy, cx)) == base;
    assert Coverage(source.scale, out) == source.scale;
    CoveragePositive(source.scale, out);
  }

  lemma AveragedPixel(source: Compact, out: nat, cy: nat, cx: nat, wy: nat, wx: nat, c: nat, base: nat)
    requires source.Complete() && out < source.scale && cy < source.height && cx < source.width && wy < out && wx < out
    requires c < 3 && source.Cell(cy, cx) == DETAIL_BIT + base && TileFits(source, base)
    ensures PixelColour(source, out, cy, cx, wy, wx, c)
         == AreaAverage(source.detail, base, source.scale, out, wy, wx, c)
  {
    var sums := RowShares(source, base, out, wx, c);
    SharesAre(source, base, out, wx, c);
    DetailAverage(source, out, cy, cx, wy, wx, c, base, sums);
    AverageIs(source.detail, base, source.scale, out, wy, wx, c, sums, source.scale * source.scale);
  }

  /** Reduced, a pixel shows the colour of a plain cell, or the average by area of its tile. */
  ghost predicate ShowsAverage(source: Compact, k: int, out: nat, wy: nat, wx: nat, pixel: (nat, nat, nat))
  {
    && 0 <= k < |source.cells|
    && if source.cells[k] < 0x8000_0000 then IsColourOf(pixel, source.cells[k])
       else
         var base := source.cells[k] - 0x8000_0000;
         && base + source.scale * source.scale <= |source.detail|
         && pixel.0 == AreaAverage(source.detail, base, source.scale, out, wy, wx, 2)
         && pixel.1 == AreaAverage(source.detail, base, source.scale, out, wy, wx, 1)
         && pixel.2 == AreaAverage(source.detail, base, source.scale, out, wy, wx, 0)
  }

  lemma AveragedDetail(source: Compact, out: nat, cy: nat, cx: nat, wy: nat, wx: nat, k: nat, base: nat,
                       pixel: (nat, nat, nat))
    requires PixelIs(source, out, cy, cx, wy, wx, pixel) && out < source.scale && k == cy * source.width + cx
    requires source.Cell(cy, cx) == DETAIL_BIT + base && TileFits(source, base)
    ensures ShowsAverage(source, k, out, wy, wx, pixel)
  {
    CellIndex(cy, cx, source.height, source.width);
    AveragedPixel(source, out, cy, cx, wy, wx, 2, base);
    AveragedPixel(source, out, cy, cx, wy, wx, 1, base);
    AveragedPixel(source, out, cy, cx, wy, wx, 0, base);
  }

  lemma AveragedPlain(source: Compact, out: nat, cy: nat, cx: nat, wy: nat, wx: nat, k: nat, pixel: (nat, nat, nat))
    requires PixelIs(source, out, cy, cx, wy, wx, pixel) && k == cy * source.width + cx
    requires source.Cell(cy, cx) < DETAIL_BIT
    ensures ShowsAverage(source, k, out, wy, wx, pixel)
  {
    CellIndex(cy, cx, source.height, source.width);
  }

  lemma TileOf(source: Compact, y: nat, x: nat)
    requires source.Complete() && y < source.height && x < source.width
    ensures source.Cell(y, x) >= DETAIL_BIT ==> TileFits(source, Offset(source.Cell(y, x)))
  {
    CellIndex(y, x, source.height, source.width);
  }

  lemma AveragedWord(source: Compact, out: nat, cy: nat, cx: nat, wy: nat, wx: nat, k: nat, pixel: (nat, nat, nat))
    requires PixelIs(source, out, cy, cx, wy, wx, pixel) && out < source.scale && k == cy * source.width + cx
    ensures ShowsAverage(source, k, out, wy, wx, pixel)
  {
    TileOf(source, cy, cx);
    if source.Cell(cy, cx) >= DETAIL_BIT {
      AveragedDetail(source, out, cy, cx, wy, wx, k, Offset(source.Cell(cy, cx)), pixel);
    } else {
      AveragedPlain(source, out, cy, cx, wy, wx, k, pixel);
    }
  }

  /** Reduced, a detailed cell shows the rounded average of its samples by area. */
  lemma AveragedShown(source: Compact, w: nat, h: nat, out: nat, py: nat, px: nat, cy: nat, cx: nat, wy: nat, wx: nat,
                      k: nat, pixel: (nat, nat, nat))
    requires source.Complete() && 0 < out < source.scale && w == source.width * out && h == source.height * out
    requires py < h && px < w && PixelShown(source, w, h, py, px, pixel)
    requires cy == py / out && cx == px / out && wy == py % out && wx == px % out
    requires k == cy * source.width + cx
    ensures ShowsAverage(source, k, out, wy, wx, pixel)
  {
    ShownIsPixel(source, w, h, out, py, px, cy, cx, wy, wx, pixel);
    AveragedWord(source, out, cy, cx, wy, wx, k, pixel);
  }

  /** What the native resolver computes for the pixel at (py, px). */
  ghost predicate PixelShown(source: Compact, w: nat, h: nat, py: nat, px: nat, pixel: (nat, nat, nat)) {
    && PositionFits(source, w, h, py, px)
    && pixel == (Resolved(source, w, h, py, px, 2), Resolved(source, w, h, py, px, 1),
                 Resolved(source, w, h, py, px, 0))
  }

  ghost predicate RowShown(source: Compact, w: nat, h: nat, py: nat, row: seq<(nat, nat, nat)>) {
    |row| == w && forall px :: 0 <= px < w ==> PixelShown(source, w, h, py, px, row[px])
  }

  ghost predicate ImageShown(source: Compact, w: nat, h: nat, image: seq<seq<(nat, nat, nat)>>) {
    |image| == h && forall py :: 0 <= py < h ==> RowShown(source, w, h, py, image[py])
  }

  /** At the packet's own scale every pixel shows its own word: that of its cell, or sample (py mod scale,
      px mod scale) of the tile the cell refers to. */
  ghost predicate SamplesImage(source: Compact, w: nat, h: nat, scale: nat, image: seq<seq<(nat, nat, nat)>>)
    requires scale > 0
  {
    |image| == h && forall py, px :: 0 <= py < h && 0 <= px < w ==>
      |image[py]| == w
      && ShowsWord(source, py / scale * source.width + px / scale, py % scale * scale + px % scale, image[py][px])
  }

  lemma SamplesInImage(source: Compact, w: nat, h: nat, scale: nat, image: seq<seq<(nat, nat, nat)>>)
    requires source.Complete() && scale == source.scale && w == source.width * scale && h == source.height * scale
    requires ImageShown(source, w, h, image)
    ensures SamplesImage(source, w, h, scale, image)
  {
    forall py, px | 0 <= py < h && 0 <= px < w
      ensures |image[py]| == w
              && ShowsWord(source, py / scale * source.width + px / scale, py % scale * scale + px % scale,
                           image[py][px])
    {
      assert RowShown(source, w, h, py, image[py]);
      SamplesShown(source, w, h, scale, py, px, image[py][px]);
    }
  }

  /** Some whole output scale makes the packet acceptable. */
  ghost predicate Accepted(source: Compact, w: nat, h: nat, maxTexture: nat) {
    exists out :: Acceptable(source, w, h, maxTexture, out)
  }

  /** The detail words fit the texture the presenter makes for them. */
  predicate DetailFits(detail: seq<Word>, side: nat, maxTexture: nat)
    requires side > 0
  {
    Max(1, CeilDiv(|detail|, Min(side, Max(1, |detail|)))) <= maxTexture
  }

  /** The fragment program for one output pixel. */
  method ShadePixel(t: Texture, source: Compact, w: nat, h: nat, maxTexture: nat, out: nat, py: nat, px: nat)
    returns (pixel: (nat, nat, nat))
    requires Acceptable(source, w, h, maxTexture, out) && Holds(t, source.detail) && py < h && px < w
    ensures PixelShown(source, w, h, py, px, pixel)
  {
    var red := CompactColour(t, source, out, py, px, 2);
    var green := CompactColour(t, source, out, py, px, 1);
    var blue := CompactColour(t, source, out, py, px, 0);
    ShaderMatchesResolver(source, w, h, maxTexture, out, py, px, 0);
    ShaderMatchesResolver(source, w, h, maxTexture, out, py, px, 1);
    ShaderMatchesResolver(source, w, h, maxTexture, out, py, px, 2);
    pixel := (red, green, blue);
  }

  method ShadeRow(t: Texture, source: Compact, w: nat, h: nat, maxTexture: nat, out: nat, py: nat)
    returns (row: seq<(nat, nat, nat)>)
    requires Acceptable(source, w, h, maxTexture, out) && Holds(t, source.detail) && py < h
    ensures RowShown(source, w, h, py, row)
  {
    row := [];
    for px := 0 to w
      invariant |row| == px && forall x :: 0 <= x < px ==> PixelShown(source, w, h, py, x, row[x])
    {
      var pixel := ShadePixel(t, source, w, h, maxTexture, out, py, px);
      row := row + [pixel];
    }
  }

  method ShadeImage(t: Texture, source: Compact, w: nat, h: nat, maxTexture: nat, out: nat)
    returns (rows: seq<seq<(nat, nat, nat)>>)
    requires Acceptable(source, w, h, maxTexture, out) && Holds(t, source.detail)
    ensures ImageShown(source, w, h, rows)
  {
    rows := [];
    for py := 0 to h
      invariant |rows| == py && forall y :: 0 <= y < py ==> RowShown(source, w, h, y, rows[y])
    {
      var row := ShadeRow(t, source, w, h, maxTexture, out, py);
      rows := rows + [row];
    }
  }

  /** A packet is validated, its detail uploaded, and every pixel shaded from the texture: unless the
      packet or its detail is refused, the GPU shows at each pixel what the native resolver computes. */
  method PaintCompact(texture: DetailTexture, source: Compact, w: nat, h: nat, side: nat, maxTexture: nat)
    returns (image: Option<seq<seq<(nat, nat, nat)>>>)
    requires texture.Valid() && side > 0
    modifies texture
    ensures texture.Valid()
    ensures image.Some? <==> Accepted(source, w, h, maxTexture) && DetailFits(source.detail, side, maxTexture)
    ensures image.Some? ==> ImageShown(source, w, h, image.value)
    ensures image.Some? && w == source.width * source.scale && h == source.height * source.scale ==>
              SamplesImage(source, w, h, source.scale, image.value)
  {
    var out := Validate(source, w, h, maxTexture);
    if out.None? {
      return None;
    }
    var width, ok := texture.Upload(source.detail, side, maxTexture);
    if !ok {
      return None;
    }
    var rows := ShadeImage(Texture(width, texture.texels), source, w, h, maxTexture, out.value);
    image := Some(rows);
    if w == source.width * source.scale && h == source.height * source.scale {
      SamplesInImage(source, w, h, source.scale, rows);
    }
  }
}
