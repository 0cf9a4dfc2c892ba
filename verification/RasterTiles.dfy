/** Building and flattening the tile lists (gpu_compute/qd3d.rs, `raster_tiles`), and
    reading them back the way the shader does. */
module RasterTiles {
  import opened Base
  import opened TileBinning
  import opened ListedTiles

  function TotalLength(lists: seq<seq<nat>>): nat {
    if lists == [] then 0 else TotalLength(lists[..|lists| - 1]) + |lists[|lists| - 1]|
  }

  lemma {:induction false} AppendGrowsTotal(lists: seq<seq<nat>>, t: nat, entry: nat)
    requires t < |lists|
    ensures TotalLength(lists[t := lists[t] + [entry]]) == TotalLength(lists) + 1
  {
    var last, after := |lists| - 1, lists[t := lists[t] + [entry]];
    if t < last {
      AppendGrowsTotal(lists[..last], t, entry);
      assert after[..last] == lists[..last][t := lists[t] + [entry]];
    } else {
      assert after[..last] == lists[..last];
    }
  }

  lemma {:induction false} EmptyTotal(lists: seq<seq<nat>>)
    requires forall t :: 0 <= t < |lists| ==> lists[t] == []
    ensures TotalLength(lists) == 0
  {
    if lists != [] {
      EmptyTotal(lists[..|lists| - 1]);
    }
  }

  /** A tile's list while primitive `n` is being binned: tiles before (x, y) are done. */
  ghost function Expected(bounds: seq<Bounds>, n: nat, tx: nat, ty: nat, x: int, y: int): seq<nat>
    requires n < |bounds|
  {
    if Meets(bounds[n], tx, ty) && (ty < y || (ty == y && tx < x))
    then TileList(bounds, n, tx, ty) + [n] else TileList(bounds, n, tx, ty)
  }

  /** Where tile (tx, ty) keeps its list: `ty * columns + tx`, by `TilesInIsProduct`. */
  function Slot(columns: nat, tx: nat, ty: nat): nat { TilesIn(columns, ty) + tx }

  lemma SlotInGrid(columns: nat, rows: nat, tx: nat, ty: nat)
    requires tx < columns && ty < rows
    ensures Slot(columns, tx, ty) < TilesIn(columns, rows)
    ensures Slot(columns, tx, ty) == ty * columns + tx
  {
    TilesGrow(columns, ty + 1, rows);
    TilesInIsProduct(columns, ty);
  }

  function At(lists: seq<seq<nat>>, columns: nat, rows: nat, tx: nat, ty: nat): seq<nat>
    requires |lists| == TilesIn(columns, rows) && tx < columns && ty < rows
  {
    SlotInGrid(columns, rows, tx, ty);
    lists[Slot(columns, tx, ty)]
  }

  ghost predicate BinnedUpTo(lists: seq<seq<nat>>, bounds: seq<Bounds>, n: nat, columns: nat, rows: nat, x: int, y: int)
    requires n < |bounds| && |lists| == TilesIn(columns, rows)
  {
    forall tx: nat, ty: nat :: tx < columns && ty < rows ==>
      At(lists, columns, rows, tx, ty) == Expected(bounds, n, tx, ty, x, y)
  }

  ghost predicate Binned(lists: seq<seq<nat>>, bounds: seq<Bounds>, n: nat, columns: nat, rows: nat)
    requires n <= |bounds| && |lists| == TilesIn(columns, rows)
  {
    forall tx: nat, ty: nat :: tx < columns && ty < rows ==>
      At(lists, columns, rows, tx, ty) == TileList(bounds, n, tx, ty)
  }

  /** Distinct tiles have distinct list slots. */
  lemma AtUpdated(lists: seq<seq<nat>>, columns: nat, rows: nat, x: nat, y: nat, tx: nat, ty: nat, list: seq<nat>)
    requires |lists| == TilesIn(columns, rows)
    requires x < columns && y < rows && tx < columns && ty < rows
    ensures Slot(columns, x, y) < |lists|
    ensures At(lists[Slot(columns, x, y) := list], columns, rows, tx, ty)
         == if tx == x && ty == y then list else At(lists, columns, rows, tx, ty)
  {
    SlotInGrid(columns, rows, x, y);
    SlotInGrid(columns, rows, tx, ty);
    assert TilesIn(columns, ty + 1) == TilesIn(columns, ty) + columns;
    assert TilesIn(columns, y + 1) == TilesIn(columns, y) + columns;
    if ty < y {
      TilesGrow(columns, ty + 1, y);
    } else if y < ty {
      TilesGrow(columns, y + 1, ty);
    }
  }

  lemma PushEntry(lists: seq<seq<nat>>, bounds: seq<Bounds>, n: nat, columns: nat, rows: nat, x: nat, y: nat)
    requires n < |bounds| && |lists| == TilesIn(columns, rows)
    requires x < columns && y < rows && Meets(bounds[n], x, y)
    requires BinnedUpTo(lists, bounds, n, columns, rows, x, y)
    ensures var at := Slot(columns, x, y);
            && at < |lists|
            && BinnedUpTo(lists[at := lists[at] + [n]], bounds, n, columns, rows, x + 1, y)
  {
    var at := Slot(columns, x, y);
    SlotInGrid(columns, rows, x, y);
    var after := lists[at := lists[at] + [n]];
    forall tx: nat, ty: nat | tx < columns && ty < rows
      ensures At(after, columns, rows, tx, ty) == Expected(bounds, n, tx, ty, x + 1, y)
    {
      AtUpdated(lists, columns, rows, x, y, tx, ty, lists[at] + [n]);
      assert At(lists, columns, rows, tx, ty) == Expected(bounds, n, tx, ty, x, y);
    }
  }

  lemma NextRow(lists: seq<seq<nat>>, bounds: seq<Bounds>, n: nat, columns: nat, rows: nat, y: nat)
    requires n < |bounds| && !bounds[n].Empty() && |lists| == TilesIn(columns, rows)
    requires BinnedUpTo(lists, bounds, n, columns, rows, EndX(bounds[n]), y)
    ensures BinnedUpTo(lists, bounds, n, columns, rows, FirstX(bounds[n]), y + 1)
  {
    forall tx: nat, ty: nat | tx < columns && ty < rows
      ensures At(lists, columns, rows, tx, ty) == Expected(bounds, n, tx, ty, FirstX(bounds[n]), y + 1)
    {
      VisitedIsMet(bounds[n], tx, ty);
    }
  }

  lemma FirstRow(lists: seq<seq<nat>>, bounds: seq<Bounds>, n: nat, columns: nat, rows: nat)
    requires n < |bounds| && |lists| == TilesIn(columns, rows) && Binned(lists, bounds, n, columns, rows)
    ensures BinnedUpTo(lists, bounds, n, columns, rows, FirstX(bounds[n]), FirstY(bounds[n]))
  {
    forall tx: nat, ty: nat | tx < columns && ty < rows
      ensures At(lists, columns, rows, tx, ty) == Expected(bounds, n, tx, ty, FirstX(bounds[n]), FirstY(bounds[n]))
    {
      VisitedIsMet(bounds[n], tx, ty);
    }
  }

  lemma LastRow(lists: seq<seq<nat>>, bounds: seq<Bounds>, n: nat, columns: nat, rows: nat)
    requires n < |bounds| && !bounds[n].Empty() && |lists| == TilesIn(columns, rows)
    requires BinnedUpTo(lists, bounds, n, columns, rows, FirstX(bounds[n]), EndY(bounds[n]))
    ensures Binned(lists, bounds, n + 1, columns, rows)
  {
    forall tx: nat, ty: nat | tx < columns && ty < rows
      ensures At(lists, columns, rows, tx, ty) == TileList(bounds, n + 1, tx, ty)
    {
      VisitedIsMet(bounds[n], tx, ty);
      assert At(lists, columns, rows, tx, ty) == Expected(bounds, n, tx, ty, FirstX(bounds[n]), EndY(bounds[n]));
    }
  }

  lemma NotMet(lists: seq<seq<nat>>, bounds: seq<Bounds>, n: nat, columns: nat, rows: nat)
    requires n < |bounds| && bounds[n].Empty() && |lists| == TilesIn(columns, rows)
             && Binned(lists, bounds, n, columns, rows)
    ensures Binned(lists, bounds, n + 1, columns, rows)
  {
  }

  method Push(lists: array<seq<nat>>, columns: nat, rows: nat, x: nat, y: nat, n: nat)
    requires lists.Length == TilesIn(columns, rows) && x < columns && y < rows
    modifies lists
    ensures Slot(columns, x, y) < lists.Length
    ensures lists[..] == old(lists[..])[Slot(columns, x, y) := old(lists[..])[Slot(columns, x, y)] + [n]]
  {
    SlotInGrid(columns, rows, x, y);
    var at := y * columns + x;
    lists[at] := lists[at] + [n];
  }

  /** The tile block [x0, x1) by [y0, y1) is the one bounds `b` meet. */
  ghost predicate IsBlock(b: Bounds, x0: nat, x1: nat, y0: nat, y1: nat) {
    !b.Empty() && x0 == FirstX(b) && x1 == EndX(b) && y0 == FirstY(b) && y1 == EndY(b)
  }

  lemma BlockMeets(b: Bounds, x0: nat, x1: nat, y0: nat, y1: nat, x: nat, y: nat)
    requires IsBlock(b, x0, x1, y0, y1) && x0 <= x < x1 && y0 <= y < y1
    ensures Meets(b, x, y)
  {
    VisitedIsMet(b, x, y);
  }

  /** The inner loop: one row of tiles for primitive `n`. */
  method BinRow(lists: array<seq<nat>>, ghost bounds: seq<Bounds>, n: nat, x0: nat, x1: nat, ghost y0: nat,
                ghost y1: nat,
                columns: nat, rows: nat, cost: (nat, nat) -> nat, y: nat, entriesBefore: nat, workBefore: nat,
                    limit: nat)
    returns (fits: bool, entries: nat, work: nat)
    requires n < |bounds| && IsBlock(bounds[n], x0, x1, y0, y1) && x0 <= x1 <= columns && y0 <= y < y1 <= rows
    requires lists.Length == TilesIn(columns, rows)
    requires BinnedUpTo(lists[..], bounds, n, columns, rows, x0, y)
    requires TotalLength(lists[..]) == entriesBefore && Allowed(lists.Length, entriesBefore, workBefore, limit)
    modifies lists
    ensures fits <==> Allowed(lists.Length, entriesBefore + x1 - x0, workBefore + RowWork(cost, y, x0, x1), limit)
    ensures fits ==>
      && entries == entriesBefore + x1 - x0
      && work == workBefore + RowWork(cost, y, x0, x1)
      && TotalLength(lists[..]) == entries
      && BinnedUpTo(lists[..], bounds, n, columns, rows, x1, y)
  {
    entries, work := entriesBefore, workBefore;
    var x := x0;
    while x < x1
      invariant x0 <= x <= x1
      invariant entries == entriesBefore + x - x0
      invariant work == workBefore + RowWork(cost, y, x0, x)
      invariant TotalLength(lists[..]) == entries && Allowed(lists.Length, entries, work, limit)
      invariant BinnedUpTo(lists[..], bounds, n, columns, rows, x, y)
    {
      RowGrows(cost, y, x0, x + 1, x1);
      entries := entries + 1;
      if (lists.Length * 2 + entries) * 4 > limit {
        return false, entries, work;
      }
      work := work + CostAt(cost, x, y);
      if work > MAX_RASTER_WORK {
        return false, entries, work;
      }
      BlockMeets(bounds[n], x0, x1, y0, y1, x, y);
      PushEntry(lists[..], bounds, n, columns, rows, x, y);
      AppendGrowsTotal(lists[..], Slot(columns, x, y), n);
      Push(lists, columns, rows, x, y, n);
      x := x + 1;
    }
    fits := true;
  }

  /** The outer loop: the rows of a nonempty block. */
  method BinBlock(lists: array<seq<nat>>, ghost bounds: seq<Bounds>, n: nat, x0: nat, x1: nat, y0: nat, y1: nat,
                  columns: nat, rows: nat, cost: (nat, nat) -> nat, entriesBefore: nat, workBefore: nat, limit: nat)
    returns (fits: bool, entries: nat, work: nat)
    requires n < |bounds| && IsBlock(bounds[n], x0, x1, y0, y1) && x0 <= x1 <= columns && y0 <= y1 <= rows
    requires lists.Length == TilesIn(columns, rows)
    requires Binned(lists[..], bounds, n, columns, rows)
    requires TotalLength(lists[..]) == entriesBefore && Allowed(lists.Length, entriesBefore, workBefore, limit)
    modifies lists
    ensures fits <==> Allowed(lists.Length, entriesBefore + TilesIn(x1 - x0, y1 - y0),
                              workBefore + BlockWork(cost, x0, x1, y0, y1), limit)
    ensures fits ==>
      && entries == entriesBefore + TilesIn(x1 - x0, y1 - y0)
      && work == workBefore + BlockWork(cost, x0, x1, y0, y1)
      && TotalLength(lists[..]) == entries
      && Binned(lists[..], bounds, n + 1, columns, rows)
  {
    fits, entries, work := true, entriesBefore, workBefore;
    FirstRow(lists[..], bounds, n, columns, rows);
    var y := y0;
    while y < y1
      invariant y0 <= y <= y1
      invariant entries == entriesBefore + TilesIn(x1 - x0, y - y0)
      invariant work == workBefore + BlockWork(cost, x0, x1, y0, y)
      invariant TotalLength(lists[..]) == entries && Allowed(lists.Length, entries, work, limit)
      invariant BinnedUpTo(lists[..], bounds, n, columns, rows, x0, y)
      invariant fits
    {
      fits, entries, work := BinRow(lists, bounds, n, x0, x1, y0, y1, columns, rows, cost, y, entries, work, limit);
      if !fits {
        TilesGrow(x1 - x0, y + 1 - y0, y1 - y0);
        BlockGrows(cost, x0, x1, y0, y + 1, y1);
        return;
      }
      NextRow(lists[..], bounds, n, columns, rows, y);
      y := y + 1;
    }
    LastRow(lists[..], bounds, n, columns, rows);
  }

  /** One primitive: nothing for empty bounds, else its block of tiles. */
  method BinPrimitive(lists: array<seq<nat>>, ghost bounds: seq<Bounds>, n: nat, extent: Extent, columns: nat,
                      rows: nat, entriesBefore: nat, workBefore: nat, limit: nat)
    returns (fits: bool, entries: nat, work: nat)
    requires n < |bounds| && extent.bounds == bounds[n] && EndX(bounds[n]) <= columns && EndY(bounds[n]) <= rows
    requires lists.Length == TilesIn(columns, rows)
    requires Binned(lists[..], bounds, n, columns, rows)
    requires TotalLength(lists[..]) == entriesBefore && Allowed(lists.Length, entriesBefore, workBefore, limit)
    modifies lists
    ensures fits
            <==> Allowed(lists.Length, entriesBefore + PrimitiveEntries(bounds[n]), workBefore + extent.Work(), limit)
    ensures fits ==>
      && entries == entriesBefore + PrimitiveEntries(bounds[n]) && work == workBefore + extent.Work()
      && TotalLength(lists[..]) == entries
      && Binned(lists[..], bounds, n + 1, columns, rows)
  {
    var b := extent.bounds;
    if b.Empty() {
      NotMet(lists[..], bounds, n, columns, rows);
      return true, entriesBefore, workBefore;
    }
    fits, entries, work :=
      BinBlock(lists, bounds, n, FirstX(b), EndX(b), FirstY(b), EndY(b), columns, rows, extent.cost,
                                    entriesBefore, workBefore, limit);
  }

  /** Headers of (offset, length) pairs point past the headers, to each tile's list. */
  ghost predicate Encodes(words: seq<nat>, lists: seq<seq<nat>>, count: nat)
    requires count <= |lists|
  {
    && 2 * |lists| <= |words|
    && forall t :: 0 <= t < count ==> Header(words, lists[t], t, 2 * |lists|)
  }

  ghost predicate Header(words: seq<nat>, list: seq<nat>, t: nat, headers: nat) {
    && 2 * t + 1 < |words|
    && headers <= words[2 * t] <= words[2 * t] + words[2 * t + 1] <= |words|
    && words[words[2 * t]..words[2 * t] + words[2 * t + 1]] == list
  }

  function WriteEntry(words: seq<nat>, tile: nat, offset: nat, list: seq<nat>): seq<nat>
    requires 2 * tile + 1 < |words|
  {
    words[2 * tile := offset][2 * tile + 1 := |list|] + list
  }

  /** Writing one header and appending its list keeps the earlier entries. */
  lemma EntryWritten(words: seq<nat>, lists: seq<seq<nat>>, tile: nat)
    requires tile < |lists| && Encodes(words, lists, tile)
    ensures Encodes(WriteEntry(words, tile, |words|, lists[tile]), lists, tile + 1)
  {
    var after := WriteEntry(words, tile, |words|, lists[tile]);
    forall t | 0 <= t <= tile
      ensures Header(after, lists[t], t, 2 * |lists|)
    {
      if t < tile {
        assert Header(words, lists[t], t, 2 * |lists|);
        var offset, length := words[2 * t], words[2 * t + 1];
        assert after[offset..offset + length] == words[offset..offset + length];
      }
    }
  }

  /** Flattening. Offsets are stored in 32 bits; a frame that fits its device never wraps them. */
  method Flatten(lists: array<seq<nat>>) returns (words: seq<nat>)
    requires 2 * lists.Length + TotalLength(lists[..]) < U32_LIMIT
    ensures |words| == 2 * lists.Length + TotalLength(lists[..])
    ensures Encodes(words, lists[..], lists.Length)
  {
    var headers := lists.Length;
    ghost var all := lists[..];
    words := seq(2 * headers, _ => 0);
    for tile := 0 to headers
      invariant |words| == 2 * headers + TotalLength(all[..tile])
      invariant Encodes(words, all, tile)
    {
      assert all[..tile + 1][..tile] == all[..tile];
      TotalPrefix(all, tile);
      EntryWritten(words, all, tile);
      var offset := |words| % U32_LIMIT;
      assert offset == |words|;
      words := WriteEntry(words, tile, offset, lists[tile]);
    }
    assert all[..headers] == all;
  }

  lemma {:induction false} TotalPrefix(lists: seq<seq<nat>>, n: nat)
    requires n < |lists|
    ensures TotalLength(lists[..n]) + |lists[n]| <= TotalLength(lists)
  {
    var last := |lists| - 1;
    if n < last {
      TotalPrefix(lists[..last], n);
      assert lists[..last][..n] == lists[..n];
    }
  }

  /** The words are a faithful per-tile index of the primitives, tile by tile. */
  ghost predicate IndexesTiles(words: seq<nat>, bounds: seq<Bounds>, columns: nat, rows: nat) {
    forall tx: nat, ty: nat :: tx < columns && ty < rows ==>
      TileEntry(words, TileList(bounds, |bounds|, tx, ty), Slot(columns, tx, ty))
  }

  ghost predicate TileEntry(words: seq<nat>, list: seq<nat>, tile: nat) { Header(words, list, tile, 0) }

  lemma EncodedTiles(words: seq<nat>, lists: seq<seq<nat>>, bounds: seq<Bounds>, columns: nat, rows: nat)
    requires |lists| == TilesIn(columns, rows)
    requires Encodes(words, lists, |lists|) && Binned(lists, bounds, |bounds|, columns, rows)
    ensures IndexesTiles(words, bounds, columns, rows)
  {
    forall tx: nat, ty: nat | tx < columns && ty < rows
      ensures TileEntry(words, TileList(bounds, |bounds|, tx, ty), Slot(columns, tx, ty))
    {
      SlotInGrid(columns, rows, tx, ty);
      assert lists[Slot(columns, tx, ty)] == At(lists, columns, rows, tx, ty);
    }
  }

  /** Every measured extent stays inside the tile grid. */
  ghost predicate InGrid<P>(measure: P -> Extent, primitives: seq<P>, columns: nat, rows: nat) {
    forall i :: 0 <= i < |primitives| ==>
      EndX(ExtentOf(measure, primitives[i]).bounds) <= columns && EndY(ExtentOf(measure, primitives[i]).bounds) <= rows
  }

  method BinNext<P>(lists: array<seq<nat>>, measure: P -> Extent, primitives: seq<P>, index: nat, columns: nat,
                    rows: nat, entriesBefore: nat, workBefore: nat, limit: nat)
    returns (fits: bool, entries: nat, work: nat)
    requires index < |primitives| && lists.Length == TilesIn(columns, rows)
             && InGrid(measure, primitives, columns, rows)
    requires Binned(lists[..], AllBounds(measure, primitives), index, columns, rows)
    requires entriesBefore == Sum(AllEntries(AllBounds(measure, primitives)), index) == TotalLength(lists[..])
    requires workBefore == Sum(AllWork(measure, primitives), index)
    requires Allowed(lists.Length, entriesBefore, workBefore, limit)
    modifies lists
    ensures fits <==> Allowed(lists.Length, Sum(AllEntries(AllBounds(measure, primitives)), index + 1),
                              Sum(AllWork(measure, primitives), index + 1), limit)
    ensures fits ==>
      && entries == Sum(AllEntries(AllBounds(measure, primitives)), index + 1) == TotalLength(lists[..])
      && work == Sum(AllWork(measure, primitives), index + 1)
      && Binned(lists[..], AllBounds(measure, primitives), index + 1, columns, rows)
  {
    var extent := ExtentOf(measure, primitives[index]);
    fits, entries, work :=
      BinPrimitive(lists, AllBounds(measure, primitives), index, extent, columns, rows,
                   entriesBefore, workBefore, limit);
  }

  /** Bins every primitive in order, stopping at the first that exceeds the device. */
  method BinAll<P>(lists: array<seq<nat>>, measure: P -> Extent, primitives: seq<P>, columns: nat, rows: nat,
                   limit: nat)
    returns (fits: bool)
    requires lists.Length == TilesIn(columns, rows) && HeadersFit(lists.Length, limit)
    requires InGrid(measure, primitives, columns, rows)
    requires forall t :: 0 <= t < lists.Length ==> lists[t] == []
    modifies lists
    ensures var bounds := AllBounds(measure, primitives);
      && (fits <==> Allowed(lists.Length, Sum(AllEntries(bounds), |primitives|),
                            Sum(AllWork(measure, primitives), |primitives|), limit))
      && (fits ==> TotalLength(lists[..]) == Sum(AllEntries(bounds), |primitives|)
                   && Binned(lists[..], bounds, |primitives|, columns, rows))
  {
    ghost var bounds := AllBounds(measure, primitives);
    ghost var allEntries, allWork := AllEntries(bounds), AllWork(measure, primitives);
    EmptyTotal(lists[..]);
    NothingBinned(lists[..], bounds, columns, rows);
    var entries, work := 0, 0;
    for index := 0 to |primitives|
      invariant entries == Sum(allEntries, index) && work == Sum(allWork, index)
      invariant TotalLength(lists[..]) == entries && Allowed(lists.Length, entries, work, limit)
      invariant Binned(lists[..], bounds, index, columns, rows)
    {
      fits, entries, work := BinNext(lists, measure, primitives, index, columns, rows, entries, work, limit);
      if !fits {
        SumGrows(allEntries, index + 1, |primitives|);
        SumGrows(allWork, index + 1, |primitives|);
        return;
      }
    }
    fits := true;
  }

  predicate HeadersFit(count: nat, limit: nat) { count * 8 <= limit }

  lemma NothingBinned(lists: seq<seq<nat>>, bounds: seq<Bounds>, columns: nat, rows: nat)
    requires |lists| == TilesIn(columns, rows)
    requires forall t :: 0 <= t < |lists| ==> lists[t] == []
    ensures Binned(lists, bounds, 0, columns, rows)
  {
    forall tx: nat, ty: nat | tx < columns && ty < rows
      ensures At(lists, columns, rows, tx, ty) == []
    {
      SlotInGrid(columns, rows, tx, ty);
    }
  }

  /** The index of every primitive list that fits the device, and of no other. The storage
      limit is the device's 32-bit binding size. */
  method Rasterize(width: nat, height: nat, primitives: seq<Primitive>, limit: u32) returns (r: Result<seq<nat>>)
    ensures r.Ok? <==> Affordable(primitives, width, height, limit)
    ensures r.Ok? ==> TilesListed(r.value, primitives, width, height)
    ensures r.Ok? ==>
      && IndexesTiles(r.value, AllBounds(Measure(width, height), primitives), CeilDiv(width, TILE_SIZE),
                      CeilDiv(height, TILE_SIZE))
      && |r.value| * 4 <= limit
  {
    var columns, rows := CeilDiv(width, TILE_SIZE), CeilDiv(height, TILE_SIZE);
    var count := columns * rows;
    TilesInIsProduct(columns, rows);
    if count * 8 > limit {
      return Err("QD3D GPU tile storage exceeds limits");
    }
    var lists := new seq<nat>[count](_ => []);
    FitsIsAffordable(primitives, width, height, limit);
    var fits := BinAll(lists, Measure(width, height), primitives, columns, rows, limit);
    if !fits {
      return Err("QD3D GPU frame exceeds tile storage or raster work limits");
    }
    var words := Flatten(lists);
    EncodedTiles(words, lists[..], AllBounds(Measure(width, height), primitives), columns, rows);
    AllTilesListed(words, primitives, width, height);
    r := Ok(words);
  }

  /** In row-major order each tile has two words, the offset and the length of its list: the primitives that
      touch one of its frame pixels. */
  ghost predicate TileListed(words: seq<nat>, primitives: seq<Primitive>, width: nat, height: nat, tx: nat, ty: nat) {
    var tile := ty * CeilDiv(width, TILE_SIZE) + tx;
    && 0 <= 2 * tile && 2 * tile + 1 < |words| && words[2 * tile] + words[2 * tile + 1] <= |words|
    && ListsTouched(words[words[2 * tile]..][..words[2 * tile + 1]], primitives, width, height, tx, ty)
  }

  ghost predicate TilesListed(words: seq<nat>, primitives: seq<Primitive>, width: nat, height: nat) {
    forall tx: nat, ty: nat :: tx < CeilDiv(width, TILE_SIZE) && ty < CeilDiv(height, TILE_SIZE) ==>
      TileListed(words, primitives, width, height, tx, ty)
  }

  lemma AllTilesListed(words: seq<nat>, primitives: seq<Primitive>, width: nat, height: nat)
    requires IndexesTiles(words, AllBounds(Measure(width, height), primitives), CeilDiv(width, TILE_SIZE),
                          CeilDiv(height, TILE_SIZE))
    ensures TilesListed(words, primitives, width, height)
  {
    var bounds, columns := AllBounds(Measure(width, height), primitives), CeilDiv(width, TILE_SIZE);
    forall tx: nat, ty: nat | tx < columns && ty < CeilDiv(height, TILE_SIZE)
      ensures TileListed(words, primitives, width, height, tx, ty)
    {
      SlotInGrid(columns, CeilDiv(height, TILE_SIZE), tx, ty);
      TileListTouches(primitives, width, height, tx, ty);
      var list, tile := TileList(bounds, |bounds|, tx, ty), ty * columns + tx;
      assert TileEntry(words, list, Slot(columns, tx, ty));
      assert words[words[2 * tile]..][..words[2 * tile + 1]] == list;
    }
  }

  /** The list named by a tile's two header words. */
  function EntryAt(words: seq<nat>, tile: int): seq<nat> {
    if 0 <= tile && 2 * tile + 1 < |words| && words[2 * tile] + words[2 * tile + 1] <= |words|
    then words[words[2 * tile]..words[2 * tile] + words[2 * tile + 1]] else []
  }

  function ShaderTile(width: nat, x: nat, y: nat): int {
    (y / TILE_SIZE) * CeilDiv(width, TILE_SIZE) + x / TILE_SIZE
  }

  /** The list the shader reads for pixel (x, y). */
  function ShaderList(words: seq<nat>, width: nat, x: nat, y: nat): seq<nat> {
    EntryAt(words, ShaderTile(width, x, y))
  }

  lemma ShaderTileIsSlot(width: nat, height: nat, x: nat, y: nat)
    requires x < width && y < height
    ensures x / TILE_SIZE < CeilDiv(width, TILE_SIZE) && y / TILE_SIZE < CeilDiv(height, TILE_SIZE)
    ensures ShaderTile(width, x, y) == Slot(CeilDiv(width, TILE_SIZE), x / TILE_SIZE, y / TILE_SIZE)
  {
    TilesInIsProduct(CeilDiv(width, TILE_SIZE), y / TILE_SIZE);
  }

  /** From index to image: for any depth test and blending, the shader's pixel equals painting
      every primitive of the frame in order. */
  lemma ShaderPaintsWholeList<T(!new)>(paint: (Primitive, int, int, T) -> T, primitives: seq<Primitive>,
                                       words: seq<nat>, width: nat, height: nat, x: nat, y: nat, pixel: T)
    requires forall i :: 0 <= i < |primitives| ==> Drawable(primitives[i])
    requires x < width && y < height
    requires IndexesTiles(words, AllBounds(Measure(width, height), primitives), CeilDiv(width, TILE_SIZE),
                          CeilDiv(height, TILE_SIZE))
    ensures var list := ShaderList(words, width, x, y);
            && (forall k :: 0 <= k < |list| ==> list[k] < |primitives|)
            && PaintListed(Shade(paint, x, y), primitives, list, pixel)
                 == PaintAll(Shade(paint, x, y), primitives, |primitives|, pixel)
  {
    ShaderListIsTileList(words, AllBounds(Measure(width, height), primitives), width, height, x, y);
    TileListPaintsSame(paint, primitives, width, height, x, y, pixel);
  }

  lemma ShaderListIsTileList(words: seq<nat>, bounds: seq<Bounds>, width: nat, height: nat, x: nat, y: nat)
    requires x < width && y < height
    requires IndexesTiles(words, bounds, CeilDiv(width, TILE_SIZE), CeilDiv(height, TILE_SIZE))
    ensures ShaderList(words, width, x, y) == TileList(bounds, |bounds|, x / TILE_SIZE, y / TILE_SIZE)
  {
    var columns, tx, ty := CeilDiv(width, TILE_SIZE), x / TILE_SIZE, y / TILE_SIZE;
    var list := TileList(bounds, |bounds|, tx, ty);
    ShaderTileIsSlot(width, height, x, y);
    assert TileEntry(words, list, Slot(columns, tx, ty));
    EntryRead(words, list, ShaderTile(width, x, y));
  }

  lemma EntryRead(words: seq<nat>, list: seq<nat>, tile: int)
    requires tile >= 0 && TileEntry(words, list, tile)
    ensures EntryAt(words, tile) == list
  {
  }
}
