/** What `run` computes for one tile and one registered function
    (`_return_block` and the masking, checking and filling of `run`), as
    functions: the rows it writes, one per pixel of the tile, or the error it
    raises. */
module TileSpec {
  import opened Arith
  import opened Outcomes
  import opened NdArrays
  import opened Tiling
  import opened RowMask
  import opened Blocks

  /** A user function: it receives the block (or a spatial window) and the
      keyword arguments given at registration. */
  type Transform = (FunInput, map<string, int>) -> Array

  /** One registered function together with what the engine keeps for it in
      its parallel lists: keyword arguments, the band count of its output,
      its nodata value (None stands for False), whether it is spatial, and
      its neighbourhood offset. */
  datatype Entry = Entry(fun: Transform, kwargs: map<string, int>, bands: nat,
                         nodata: Option<int>, is3d: bool, offset: nat)

  /** A tile of `_iter_block` over the source: non-empty and in the grid. */
  predicate TileOf(src: Source, t: Tile) {
    SourceValid(src) && Inside(t, src.image.nColumns, src.image.nLines) && t.width > 0 && t.height > 0
  }

  /** Pixel `p` of a tile, in the C order of the block: its line and column. */
  function PixelAt(t: Tile, p: nat): (rc: (nat, nat))
    requires t.width > 0 && t.col >= 0 && t.row >= 0 && p < t.height * t.width
    ensures rc.0 == t.row + p / t.width && rc.1 == t.col + p % t.width
    ensures Contains(t, rc.0, rc.1)
  {
    IndexOfPair(p, t.height, t.width);
    (t.row + p / t.width, t.col + p % t.width)
  }

  /** Line `i`, column `j` of a tile is its pixel `i * width + j`. */
  lemma PixelAtPair(t: Tile, i: nat, j: nat)
    requires t.col >= 0 && t.row >= 0 && i < t.height && j < t.width
    ensures i * t.width + j < t.height * t.width
    ensures PixelAt(t, i * t.width + j) == (t.row + i, t.col + j)
  {
    PairBound(i, j, t.height, t.width);
    PairOfIndex(i, j, t.width);
  }

  /** The per-pixel flags of the tile as `run` reads it (no offset, no
      `force_3d`). */
  function TileFlags(src: Source, t: Tile): (flags: seq<bool>)
    requires TileOf(src, t)
    ensures |flags| == t.height * t.width
    ensures forall p :: 0 <= p < |flags| ==> flags[p] == Flagged(src, PixelAt(t, p).0, PixelAt(t, p).1)
  {
    ReadTileOk(src, t, false);
    TileFlagsPixels(src, t);
    BlockFlags(src, t, 0, false).value
  }

  /** Every flag of the tile read is the flag of its pixel. */
  lemma TileFlagsPixels(src: Source, t: Tile)
    requires TileOf(src, t)
    ensures var f := BlockFlags(src, t, 0, false);
      f.Ok? && |f.value| == t.height * t.width
      && forall p :: 0 <= p < |f.value| ==> f.value[p] == Flagged(src, PixelAt(t, p).0, PixelAt(t, p).1)
  {
    ReadTileOk(src, t, false);
    var flags := BlockFlags(src, t, 0, false).value;
    forall p | 0 <= p < |flags|
      ensures flags[p] == Flagged(src, PixelAt(t, p).0, PixelAt(t, p).1)
    {
      TileFlagPixel(src, t, p);
    }
  }

  /** Flag `p` of the tile read is the flag of pixel `p`. */
  lemma TileFlagPixel(src: Source, t: Tile, p: nat)
    requires TileOf(src, t) && p < t.height * t.width
    ensures var f := BlockFlags(src, t, 0, false);
      f.Ok? && p < |f.value| && f.value[p] == Flagged(src, PixelAt(t, p).0, PixelAt(t, p).1)
  {
    IndexOfPair(p, t.height, t.width);
    var i: nat, j: nat := p / t.width, p % t.width;
    assert p == i * t.width + j;
    TileFlagsAt(src, t, false, i, j);
  }

  predicate AllMasked(flags: seq<bool>) {
    forall p :: 0 <= p < |flags| ==> flags[p]
  }

  predicate NoneMasked(flags: seq<bool>) {
    forall p :: 0 <= p < |flags| ==> !flags[p]
  }

  // ---------------------------------------------------------------------
  // _return_block, spatial branch

  /** `resFun[y_center, x_center, ...] = fun(spatial_block, **kwargs)` for the
      pixel at line `y`, column `x`: the function sees the window of radius
      `offset` around the pixel, read with `force_3d`, and its result must
      broadcast to the output's bands. */
  function SpatialValue(src: Source, e: Entry, y: nat, x: nat): (r: Result<seq<int>>)
    requires SourceValid(src) && y < src.image.nLines && x < src.image.nColumns
    ensures r.Ok? ==> |r.value| == e.bands
    ensures r.Err? ==> r.error == ShapeMismatch
  {
    match ReadBlock(src, Tile(x, y, 1, 1), e.offset, true)
    case Err(err) => Err(err)
    case Ok(win) =>
      match BroadcastTo(e.fun(MaskedIn(win), e.kwargs), [e.bands])
      case Err(err) => Err(err)
      case Ok(v) =>
        assert |v.data| == e.bands by { ProductSingle(e.bands); }
        Ok(v.data)
  }

  function SpatialCell(src: Source, e: Entry, t: Tile, p: nat): (r: Result<seq<int>>)
    requires TileOf(src, t) && p < t.height * t.width
    ensures r.Ok? ==> |r.value| == e.bands
    ensures r.Err? ==> r.error == ShapeMismatch
  {
    SpatialValue(src, e, PixelAt(t, p).0, PixelAt(t, p).1)
  }

  predicate SpatialFails(src: Source, e: Entry, t: Tile)
    requires TileOf(src, t)
  {
    exists p :: 0 <= p < t.height * t.width && SpatialCell(src, e, t, p).Err?
  }

  /** The spatial result of a tile, one row per pixel; a window whose result
      does not broadcast stops the run. */
  function SpatialGrid(src: Source, e: Entry, t: Tile): (r: Result<seq<seq<int>>>)
    requires TileOf(src, t)
    ensures r.Err? <==> SpatialFails(src, e, t)
    ensures r.Err? ==> r.error == ShapeMismatch
    ensures r.Ok? ==> |r.value| == t.height * t.width && AllRowsHave(r.value, e.bands)
    ensures r.Ok? ==> forall p :: 0 <= p < t.height * t.width ==> r.value[p] == SpatialCell(src, e, t, p).value
  {
    if SpatialFails(src, e, t) then Err(ShapeMismatch)
    else Ok(seq(t.height * t.width, p requires 0 <= p < t.height * t.width => SpatialCell(src, e, t, p).value))
  }

  /** `_return_block`: the spatial grid as an `(lines, cols, bands)` array, or
      the function applied to the block `get_block` gives (the unmasked rows
      in 2-D, the masked cube in 3-D), then `reshape_ndim`. */
  function BlockResult(src: Source, e: Entry, t: Tile): (r: Result<Array>)
    requires TileOf(src, t)
    ensures r.Err? ==> e.is3d && SpatialFails(src, e, t) && r.error == ShapeMismatch
    ensures r.Ok? ==> |r.value.shape| >= 1
    ensures r.Ok? && e.is3d ==> r.value.shape == [t.height, t.width, e.bands]
    ensures r.Ok? && !e.is3d && !src.return3d ==> |r.value.shape| >= 2
  {
    if e.is3d then
      match SpatialGrid(src, e, t)
      case Err(err) => Err(err)
      case Ok(rows) => Ok(GridCube(rows, t.height, t.width, e.bands))
    else
      Ok(PointwiseBlock(src, e, t))
  }

  /** The spatial results of a tile as its `(lines, cols, bands)` cube. */
  function GridCube(rows: seq<seq<int>>, h: nat, w: nat, bands: nat): (a: Array)
    requires |rows| == h * w && AllRowsHave(rows, bands)
    ensures a.shape == [h, w, bands]
  {
    assert |Flatten(rows)| == Product([h, w, bands]) by {
      FlattenLength(rows, bands);
      ProductTriple(h, w, bands);
    }
    NdArray([h, w, bands], Flatten(rows), "float64")
  }

  /** The function applied to the block `get_block` gives, then
      `reshape_ndim`. */
  function PointwiseBlock(src: Source, e: Entry, t: Tile): (a: Array)
    requires TileOf(src, t)
    ensures |a.shape| >= 1 && (!src.return3d ==> |a.shape| >= 2)
  {
    ReadTileOk(src, t, false);
    var r := ReshapeNdim(e.fun(BlockInput(src, t, 0, false).value, e.kwargs), src.return3d);
    assert |r.shape| >= 1 by {
      if |r.shape| == 0 { assert !src.return3d; }
    }
    r
  }

  // ---------------------------------------------------------------------
  // run: checking, masking and filling

  /** The row written for a masked pixel: the nodata value in every band, or
      0 when nodata is False (`np.where(tmp, False, ...)`). */
  function FillRow(e: Entry): (row: seq<int>)
    ensures |row| == e.bands && forall b :: 0 <= b < e.bands ==> row[b] == e.nodata.GetOr(0)
  {
    seq(e.bands, _ => e.nodata.GetOr(0))
  }

  /** The rows of an array whose shape after its last axis has `count`
      pixels of `bands` values. */
  function RowsOf(a: Array, count: nat, bands: nat): (rows: seq<seq<int>>)
    requires |a.shape| >= 1 && Product(Init(a.shape)) == count && Last(a.shape) == bands
    ensures |rows| == count && AllRowsHave(rows, bands)
  {
    assert a.shape == Init(a.shape) + [Last(a.shape)];
    AsRows(a.data, bands, count)
  }

  /** The 3-D fill: `np.where(tmp, nodata, resFun)` with `tmp` the pixel
      flags repeated over the bands; the result must broadcast to the
      tile's cube. */
  function Partial3D(flags: seq<bool>, fill: seq<int>, res: Array, h: nat, w: nat): (r: Result<seq<seq<int>>>)
    requires |flags| == h * w
    ensures r.Err? <==> !BroadcastableTo(res.shape, [h, w, |fill|])
    ensures r.Err? ==> r.error == ShapeMismatch
    ensures r.Ok? ==> |r.value| == h * w && AllRowsHave(r.value, |fill|)
  {
    match BroadcastTo(res, [h, w, |fill|])
    case Err(err) => Err(err)
    case Ok(cube) =>
      assert Product(Init(cube.shape)) == h * w by { ProductPair(h, w); }
      var rows := RowsOf(cube, h * w, |fill|);
      Ok(seq(h * w, p requires 0 <= p < h * w => if flags[p] then fill else rows[p]))
  }

  /** A masked pixel gets the fill row; an unmasked one the broadcast
      result at its own place. */
  lemma Partial3DAt(flags: seq<bool>, fill: seq<int>, res: Array, h: nat, w: nat, p: nat, b: nat)
    requires |flags| == h * w && Partial3D(flags, fill, res, h, w).Ok? && p < h * w && b < |fill|
    ensures var cube := BroadcastTo(res, [h, w, |fill|]);
      && cube.Ok? && p * |fill| + b < |cube.value.data|
      && Partial3D(flags, fill, res, h, w).value[p][b] ==
           if flags[p] then fill[b] else cube.value.data[p * |fill| + b]
  {
    var cube := BroadcastTo(res, [h, w, |fill|]).value;
    assert Product(Init(cube.shape)) == h * w by { ProductPair(h, w); }
    AsRowsAt(cube.data, |fill|, h * w, p, b);
  }

  /** The 2-D fill: `tmp[mask] = nodata; tmp[~mask] = resFun`, where the
      result must broadcast to one row per unmasked pixel. */
  function Partial2D(flags: seq<bool>, fill: seq<int>, res: Array): (r: Result<seq<seq<int>>>)
    ensures r.Err? <==> !BroadcastableTo(res.shape, [CountUnmasked(flags), |fill|])
    ensures r.Err? ==> r.error == ShapeMismatch
    ensures r.Ok? ==> |r.value| == |flags|
  {
    var k := CountUnmasked(flags);
    match BroadcastTo(res, [k, |fill|])
    case Err(err) => Err(err)
    case Ok(kept) =>
      assert Product(Init(kept.shape)) == k by { ProductSingle(k); }
      Ok(Reinsert(flags, fill, RowsOf(kept, k, |fill|)))
  }

  /** The rows of `res` broadcast to `count` rows of `bands` values. */
  function BroadcastRowsOf(res: Array, count: nat, bands: nat): (rows: seq<seq<int>>)
    requires BroadcastableTo(res.shape, [count, bands])
    ensures |rows| == count && AllRowsHave(rows, bands)
  {
    var b := BroadcastTo(res, [count, bands]).value;
    assert Product(Init(b.shape)) == count by { ProductSingle(count); }
    RowsOf(b, count, bands)
  }

  /** Every masked pixel gets the fill row and the unmasked pixels receive
      the result rows in order, so dropping the masked rows again gives back
      exactly the function's rows. */
  lemma Partial2DRows(flags: seq<bool>, fill: seq<int>, res: Array)
    requires Partial2D(flags, fill, res).Ok?
    ensures var rows := Partial2D(flags, fill, res).value;
      var k := CountUnmasked(flags);
      && BroadcastTo(res, [k, |fill|]).Ok?
      && (forall p :: 0 <= p < |rows| && flags[p] ==> rows[p] == fill)
      && Keep(rows, flags) == BroadcastRowsOf(res, k, |fill|)
  {
    var k := CountUnmasked(flags);
    var kept := BroadcastTo(res, [k, |fill|]).value;
    assert Product(Init(kept.shape)) == k by { ProductSingle(k); }
    var keptRows := RowsOf(kept, k, |fill|);
    forall p | 0 <= p < |flags| && flags[p]
      ensures Partial2D(flags, fill, res).value[p] == fill
    {
      ReinsertAt(flags, fill, keptRows, p);
    }
    KeepReinsert(flags, fill, keptRows);
  }

  /** The unmasked pixel `p` receives the result row whose rank is the
      number of unmasked pixels before it. */
  lemma Partial2DAt(flags: seq<bool>, fill: seq<int>, res: Array, p: nat, b: nat)
    requires Partial2D(flags, fill, res).Ok? && p < |flags| && !flags[p] && b < |fill|
    ensures var k := CountUnmasked(flags);
      var kept := BroadcastTo(res, [k, |fill|]);
      var q := CountUnmasked(flags[..p]);
      && kept.Ok? && q < k && q * |fill| + b < |kept.value.data|
      && Partial2D(flags, fill, res).value[p][b] == kept.value.data[q * |fill| + b]
  {
    var k := CountUnmasked(flags);
    var kept := BroadcastTo(res, [k, |fill|]).value;
    assert Product(Init(kept.shape)) == k by { ProductSingle(k); }
    var keptRows := RowsOf(kept, k, |fill|);
    ReinsertAt(flags, fill, keptRows, p);
    AsRowsAt(kept.data, |fill|, k, CountUnmasked(flags[..p]), b);
  }

  /** A tile without masked pixels: the result is written band by band, so
      it needs exactly `bands` values on its last axis (a shorter one fails
      at the first missing band) and one row per pixel before it. */
  function Unmasked(res: Array, h: nat, w: nat, bands: nat, return3d: bool): (r: Result<seq<seq<int>>>)
    requires |res.shape| >= 1
    ensures r.Ok? <==>
      && Last(res.shape) == bands
      && (if return3d then Init(res.shape) == [h, w] else Product(Init(res.shape)) == h * w)
    ensures r.Ok? ==> |r.value| == h * w && AllRowsHave(r.value, bands)
    ensures r.Err? && Last(res.shape) < bands ==> r.error == IndexOutOfRange
  {
    if Last(res.shape) != bands then
      if Last(res.shape) < bands then Err(IndexOutOfRange) else Err(BandOverflow)
    else if return3d && Init(res.shape) != [h, w] then Err(ShapeMismatch)
    else if Product(Init(res.shape)) != h * w then
      assert !return3d by { if return3d { ProductPair(h, w); } }
      Err(ShapeMismatch)
    else Ok(RowsOf(res, h * w, bands))
  }

  /** Each written value is the result's element for that pixel and band. */
  lemma UnmaskedAt(res: Array, h: nat, w: nat, bands: nat, return3d: bool, p: nat, b: nat)
    requires |res.shape| >= 1 && Unmasked(res, h, w, bands, return3d).Ok? && p < h * w && b < bands
    ensures p * bands + b < |res.data| && Unmasked(res, h, w, bands, return3d).value[p][b] == res.data[p * bands + b]
  {
    assert Product(Init(res.shape)) == h * w by {
      if return3d { ProductPair(h, w); }
    }
    assert res.shape == Init(res.shape) + [Last(res.shape)];
    AsRowsAt(res.data, bands, h * w, p, b);
  }

  /** The rows `run` writes for tile `t` and function `e`, pixel by pixel in
      the tile's C order, or the error it raises. */
  function TileResult(src: Source, e: Entry, t: Tile): (r: Result<seq<seq<int>>>)
    requires TileOf(src, t)
    ensures r.Ok? ==> |r.value| == t.height * t.width && AllRowsHave(r.value, e.bands)
  {
    var flags := TileFlags(src, t);
    if AllMasked(flags) then
      if e.nodata.Some? then Ok(seq(t.height * t.width, _ => FillRow(e))) else Err(MissingNoData)
    else
      match BlockResult(src, e, t)
      case Err(err) => Err(err)
      case Ok(res) =>
        if Last(res.shape) > e.bands then Err(BandOverflow)
        else if NoneMasked(flags) then Unmasked(res, t.height, t.width, e.bands, src.return3d)
        else if src.return3d || e.is3d then Partial3D(flags, FillRow(e), res, t.height, t.width)
        else
          var r := Partial2D(flags, FillRow(e), res);
          assert r.Ok? ==> AllRowsHave(r.value, e.bands) by {
            if r.Ok? {
              forall p | 0 <= p < |r.value| ensures |r.value[p]| == e.bands {
                Partial2DLength(flags, FillRow(e), res, p);
              }
            }
          }
          r
  }

  lemma Partial2DLength(flags: seq<bool>, fill: seq<int>, res: Array, p: nat)
    requires Partial2D(flags, fill, res).Ok? && p < |flags|
    ensures |Partial2D(flags, fill, res).value[p]| == |fill|
  {
    var k := CountUnmasked(flags);
    var kept := BroadcastTo(res, [k, |fill|]).value;
    assert Product(Init(kept.shape)) == k by { ProductSingle(k); }
    ReinsertAt(flags, fill, RowsOf(kept, k, |fill|), p);
  }

  // ---------------------------------------------------------------------
  // Which branch a tile takes

  /** A fully masked tile is filled with the nodata value, or stops the run
      when nodata is False. */
  lemma FullyMaskedTile(src: Source, e: Entry, t: Tile)
    requires TileOf(src, t)
    requires forall r, c :: Contains(t, r, c) ==> Flagged(src, r, c)
    ensures var res := TileResult(src, e, t);
      && (e.nodata.None? <==> res == Err(MissingNoData))
      && (e.nodata.Some? ==> res.Ok? && forall p, b :: 0 <= p < |res.value| && 0 <= b < e.bands ==>
            res.value[p][b] == e.nodata.value)
  {
    var flags := TileFlags(src, t);
    assert AllMasked(flags) by {
      forall p | 0 <= p < |flags| ensures flags[p] {
        var rc := PixelAt(t, p);
      }
    }
  }

  /** A tile with an unmasked pixel whose result has more bands than the
      output stops the run. */
  lemma TooManyBands(src: Source, e: Entry, t: Tile)
    requires TileOf(src, t) && !AllMasked(TileFlags(src, t))
    requires BlockResult(src, e, t).Ok? && Last(BlockResult(src, e, t).value.shape) > e.bands
    ensures TileResult(src, e, t) == Err(BandOverflow)
  {
  }

  /** A pointwise function in 2-D on a partly masked tile: the result goes
      through the 2-D fill. */
  lemma PartlyMasked2D(src: Source, e: Entry, t: Tile)
    requires TileOf(src, t) && !src.return3d && !e.is3d
    requires var flags := TileFlags(src, t); !AllMasked(flags) && !NoneMasked(flags)
    requires BlockResult(src, e, t).Ok? && Last(BlockResult(src, e, t).value.shape) <= e.bands
    ensures TileResult(src, e, t) == Partial2D(TileFlags(src, t), FillRow(e), BlockResult(src, e, t).value)
  {
  }

  /** In 3-D or for a spatial function, a partly masked tile goes through
      the 3-D fill. */
  lemma PartlyMasked3D(src: Source, e: Entry, t: Tile)
    requires TileOf(src, t) && (src.return3d || e.is3d)
    requires var flags := TileFlags(src, t); !AllMasked(flags) && !NoneMasked(flags)
    requires BlockResult(src, e, t).Ok? && Last(BlockResult(src, e, t).value.shape) <= e.bands
    ensures TileResult(src, e, t) ==
      Partial3D(TileFlags(src, t), FillRow(e), BlockResult(src, e, t).value, t.height, t.width)
  {
  }

  /** A tile without masked pixels is written as the function returned it. */
  lemma UnmaskedTile(src: Source, e: Entry, t: Tile)
    requires TileOf(src, t) && NoneMasked(TileFlags(src, t)) && BlockResult(src, e, t).Ok?
    ensures TileResult(src, e, t) ==
      Unmasked(BlockResult(src, e, t).value, t.height, t.width, e.bands, src.return3d)
  {
    var flags := TileFlags(src, t);
    assert !AllMasked(flags) by { assert !flags[0]; }
  }

  /** The spatial function of pixel `p` sees the window around that pixel,
      whose flags mark the window pixels holding nodata, and all of them when
      the centre is masked by the mask raster. */
  lemma SpatialGridAt(src: Source, e: Entry, t: Tile, p: nat)
    requires TileOf(src, t) && p < t.height * t.width && SpatialGrid(src, e, t).Ok?
    ensures var (y, x) := PixelAt(t, p);
      && ReadBlock(src, Tile(x, y, 1, 1), e.offset, true).Ok?
      && var win := ReadBlock(src, Tile(x, y, 1, 1), e.offset, true).value;
      && BroadcastTo(e.fun(MaskedIn(win), e.kwargs), [e.bands]).Ok?
      && SpatialGrid(src, e, t).value[p] == BroadcastTo(e.fun(MaskedIn(win), e.kwargs), [e.bands]).value.data
  {
    var (y, x) := PixelAt(t, p);
    assert SpatialCell(src, e, t, p).Ok?;
  }

  // ---------------------------------------------------------------------
  // As written: the selectors `_return_block` uses for a spatial function

  /** `self._offsets[idx]`: the offsets list grows only for spatial
      functions but is indexed by the position among all functions. */
  function SpatialOffsetAsWritten(spatialOffsets: seq<nat>, idx: nat): (r: Result<nat>)
    ensures idx < |spatialOffsets| ==> r == Ok(spatialOffsets[idx])
    ensures idx >= |spatialOffsets| ==> r == Err(IndexOutOfRange)
  {
    PyIndex(spatialOffsets, idx)
  }

  /** The `_offsets` list after a sequence of registrations, each `None`
      for `add_function` or `Some(k)` for `add_spatial_function` with offset
      `k`, as written: only spatial registrations append. */
  function OffsetsAsWritten(regs: seq<Option<nat>>): (offs: seq<nat>)
    ensures |offs| <= |regs|
  {
    if regs == [] then []
    else OffsetsAsWritten(regs[..|regs| - 1]) + (if regs[|regs| - 1].Some? then [regs[|regs| - 1].value] else [])
  }

  /** The offsets as the engine keeps them: one per function, 0 for a
      pointwise one. */
  function OffsetsPerFunction(regs: seq<Option<nat>>): (offs: seq<nat>)
    ensures |offs| == |regs|
    ensures forall i :: 0 <= i < |regs| ==> offs[i] == regs[i].GetOr(0)
  {
    seq(|regs|, i requires 0 <= i < |regs| => regs[i].GetOr(0))
  }

  /** With spatial registrations only, both lists agree, so the lookup is
      right exactly when no pointwise function comes first. */
  lemma {:induction false} OffsetsAlignedWhenAllSpatial(regs: seq<Option<nat>>)
    requires forall i :: 0 <= i < |regs| ==> regs[i].Some?
    ensures OffsetsAsWritten(regs) == OffsetsPerFunction(regs)
  {
    if regs != [] {
      OffsetsAlignedWhenAllSpatial(regs[..|regs| - 1]);
    }
  }

  /** A pointwise function, then spatial functions with offsets 1 and 2:
      as written the first spatial function (index 1) silently reads offset
      2, and the second (index 2) raises IndexError; the engine's lists give
      each its own offset. */
  lemma SpatialOffsetMisaligned()
    ensures OffsetsAsWritten([None, Some(1), Some(2)]) == [1, 2]
    ensures SpatialOffsetAsWritten(OffsetsAsWritten([None, Some(1), Some(2)]), 1) == Ok(2)
    ensures SpatialOffsetAsWritten(OffsetsAsWritten([None, Some(1), Some(2)]), 2) == Err(IndexOutOfRange)
    ensures OffsetsPerFunction([None, Some(1), Some(2)]) == [0, 1, 2]
  {
    var regs: seq<Option<nat>> := [None, Some(1), Some(2)];
    assert regs[..2] == [None, Some(1)] && regs[..2][..1] == [None] && regs[..2][..1][..0] == [];
  }

  /** As written, `X_reshape` is only bound when the block is not already
      3-D; with `return_3d` the lookup of its shape fails. */
  function SpatialShapeAsWritten(blockNdim: nat, lines: nat, cols: nat): (r: Result<(nat, nat)>)
    ensures blockNdim > 2 <==> r == Err(UnboundName)
    ensures blockNdim <= 2 ==> r == Ok((lines, cols))
  {
    if blockNdim > 2 then Err(UnboundName) else Ok((lines, cols))
  }

  /** With `return_3d` every block `run` reads is 3-D, so a spatial function
      never runs as written; the corrected grid always has the tile's shape. */
  lemma SpatialShapeWithReturn3d(src: Source, t: Tile)
    requires TileOf(src, t) && src.return3d
    ensures ReadBlock(src, t, 0, false).Ok?
    ensures SpatialShapeAsWritten(|ReadBlock(src, t, 0, false).value.arr.shape|, t.height, t.width) == Err(UnboundName)
  {
    ReadTileOk(src, t, false);
  }
}
