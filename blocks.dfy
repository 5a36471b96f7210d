/** Reading blocks: `_generate_block_array`, `_filter_nodata`, `get_block`
    with `_manage_2d_mask` / `_return_unmasked_X`, and the probe slice of
    `_check_add_function`. */
module Blocks {
  import opened Arith
  import opened Outcomes
  import opened NdArrays
  import opened Tiling
  import opened RowMask

  /** An opened input raster: its size, its pixels indexed by line, column
      and band, the no-data value of band 1 and the numpy dtype of its data. */
  datatype Raster = Raster(nColumns: nat, nLines: nat, nBands: nat,
                           pixels: seq<seq<seq<int>>>, nodata: Option<int>, dtype: string)

  predicate RasterValid(r: Raster) {
    && r.nBands >= 1 && |r.pixels| == r.nLines
    && (forall i :: 0 <= i < |r.pixels| ==> |r.pixels[i]| == r.nColumns)
    && (forall i, j :: 0 <= i < |r.pixels| && 0 <= j < |r.pixels[i]| ==> |r.pixels[i][j]| == r.nBands)
  }

  /** Band `b` of the pixel at line `r`, column `c`. */
  function Band(img: Raster, r: nat, c: nat, b: nat): int
    requires RasterValid(img) && r < img.nLines && c < img.nColumns && b < img.nBands
  {
    img.pixels[r][c][b]
  }

  /** What the engine reads: one raster, the optional mask raster (band 1,
      indexed by line and column; 0 masks the pixel) and `return_3d`. */
  datatype Source = Source(image: Raster, mask: Option<seq<seq<int>>>, return3d: bool)

  predicate SourceValid(s: Source) {
    && RasterValid(s.image)
    && (s.mask.Some? ==>
          && |s.mask.value| == s.image.nLines
          && forall i :: 0 <= i < |s.mask.value| ==> |s.mask.value[i]| == s.image.nColumns)
  }

  /** The tile lies in a grid of `nColumns` by `nLines`. */
  predicate Inside(t: Tile, nColumns: int, nLines: int) {
    0 <= t.col && 0 <= t.row && 0 <= t.width && 0 <= t.height &&
    t.col + t.width <= nColumns && t.row + t.height <= nLines
  }

  // ---------------------------------------------------------------------
  // ReadAsArray

  predicate Covers<T>(grid: seq<seq<T>>, t: Tile) {
    && 0 <= t.col && 0 <= t.row && 0 <= t.width && 0 <= t.height
    && t.row + t.height <= |grid|
    && forall i :: t.row <= i < t.row + t.height ==> t.col + t.width <= |grid[i]|
  }

  /** `ReadAsArray(col, row, width, height)`: the cells of the window, line
      by line. */
  function Window<T>(grid: seq<seq<T>>, t: Tile): (cells: seq<T>)
    requires Covers(grid, t)
    ensures |cells| == t.height * t.width
  {
    seq(t.height * t.width, p requires 0 <= p < t.height * t.width => Cell(grid, t, p))
  }

  function Cell<T>(grid: seq<seq<T>>, t: Tile, p: nat): T
    requires Covers(grid, t) && p < t.height * t.width
  {
    assert t.width > 0;
    IndexOfPair(p, t.height, t.width);
    grid[t.row + p / t.width][t.col + p % t.width]
  }

  /** Cell `(i, j)` of the window is the grid cell at line `row + i`,
      column `col + j`. */
  lemma WindowAt<T>(grid: seq<seq<T>>, t: Tile, i: nat, j: nat)
    requires Covers(grid, t) && i < t.height && j < t.width
    ensures i * t.width + j < t.height * t.width
    ensures Window(grid, t)[i * t.width + j] == grid[t.row + i][t.col + j]
  {
    PairBound(i, j, t.height, t.width);
    PairOfIndex(i, j, t.width);
  }

  /** Every pixel of a window of a valid raster has all its bands. */
  lemma WindowPixels(r: Raster, t: Tile)
    requires RasterValid(r) && Inside(t, r.nColumns, r.nLines)
    ensures Covers(r.pixels, t) && AllRowsHave(Window(r.pixels, t), r.nBands)
  {
    assert Covers(r.pixels, t);
    var px := Window(r.pixels, t);
    forall p | 0 <= p < |px| ensures |px[p]| == r.nBands {
      IndexOfPair(p, t.height, t.width);
      var i, j := t.row + p / t.width, t.col + p % t.width;
      assert i < |r.pixels| && j < |r.pixels[i]|;
      assert px[p] == r.pixels[i][j];
    }
  }

  /** The value of band 1 of each pixel. */
  function FirstBand(px: seq<seq<int>>): (check: seq<int>)
    requires forall q :: 0 <= q < |px| ==> |px[q]| > 0
    ensures |check| == |px|
  {
    seq(|px|, q requires 0 <= q < |px| => px[q][0])
  }

  // ---------------------------------------------------------------------
  // Layouts

  /** The shape of a block of `h` lines and `w` columns: pixels by bands in
      2-D mode, lines by columns by bands in 3-D mode. */
  function BlockShape(h: nat, w: nat, bands: nat, cube: bool): (s: seq<nat>)
    ensures Product(s) == (h * w) * bands
  {
    if cube then
      ProductTriple(h, w, bands);
      [h, w, bands]
    else
      ProductPair(h * w, bands);
      [h * w, bands]
  }

  /** As written: GDAL returns a single-band window as `(height, width)`, the
      band axis is only moved for more than two axes, and in 2-D mode
      `reshape(-1, shape[-1])` keeps `(height, width)`. */
  function BlockShapeAsWritten(h: nat, w: nat, bands: nat, cube: bool): seq<nat>
  {
    if bands == 1 then [h, w] else BlockShape(h, w, bands, cube)
  }

  /** A single-band raster in 2-D mode: as written each row of the block is a
      whole line of `w` pixels, where the corrected read has one row per
      pixel with one band. */
  lemma SingleBandRowsAsWritten(h: nat, w: nat)
    requires h > 0 && w > 1
    ensures BlockShapeAsWritten(h, w, 1, false) == [h, w]
    ensures BlockShape(h, w, 1, false) == [h * w, 1]
    ensures h < h * w
  {
  }

  /** The pixel flags of a single-band window of `h` lines and `w` columns in
      2-D mode without a mask raster, as written: the block keeps the shape
      `(h, w)`, so `arr[..., 0]` is the first pixel of each line, and
      `tmpMask[t, :]` marks every pixel of a line whose first pixel holds the
      no-data value. */
  function SingleBandFlagsAsWritten(window: seq<int>, h: nat, w: nat, nodata: Option<int>): (flags: seq<bool>)
    requires w > 0 && |window| == h * w
    ensures |flags| == h * w
  {
    seq(h * w, p requires 0 <= p < h * w => LineStartHolds(window, h, w, nodata, p))
  }

  /** As written, the pixel at line `i`, column `j` carries the flag of the
      first pixel of line `i`. */
  lemma SingleBandLineFlag(window: seq<int>, h: nat, w: nat, nodata: Option<int>, i: nat, j: nat)
    requires w > 0 && |window| == h * w && i < h && j < w
    ensures i * w + j < h * w && i * w < h * w
    ensures SingleBandFlagsAsWritten(window, h, w, nodata)[i * w + j] == (nodata == Some(window[i * w]))
  {
    PairBound(i, j, h, w);
    PairBound(i, 0, h, w);
    PairOfIndex(i, j, w);
  }

  /** Whether the first pixel of the line holding window pixel `p` is the
      no-data value. */
  predicate LineStartHolds(window: seq<int>, h: nat, w: nat, nodata: Option<int>, p: nat)
    requires w > 0 && |window| == h * w && p < h * w
  {
    IndexOfPair(p, h, w);
    PairBound(p / w, 0, h, w);
    nodata == Some(window[(p / w) * w])
  }

  /** A single-band 2 x 3 tile in 2-D mode with no-data value 9: as written,
      9 at line 0, column 0 flags the whole of line 0, and 9 at line 0,
      column 1 flags nothing; the corrected read flags exactly that pixel in
      both cases. */
  lemma SingleBandNodataAsWritten()
    ensures SingleBandFlagsAsWritten([9, 0, 0, 0, 0, 0], 2, 3, Some(9)) == [true, true, true, false, false, false]
    ensures NodataFlags([9, 0, 0, 0, 0, 0], Some(9)) == [true, false, false, false, false, false]
    ensures SingleBandFlagsAsWritten([0, 9, 0, 0, 0, 0], 2, 3, Some(9)) == [false, false, false, false, false, false]
    ensures NodataFlags([0, 9, 0, 0, 0, 0], Some(9)) == [false, true, false, false, false, false]
  {
    var x, y := [9, 0, 0, 0, 0, 0], [0, 9, 0, 0, 0, 0];
    SingleBandLineFlag(x, 2, 3, Some(9), 0, 0); SingleBandLineFlag(y, 2, 3, Some(9), 0, 0);
    SingleBandLineFlag(x, 2, 3, Some(9), 0, 1); SingleBandLineFlag(y, 2, 3, Some(9), 0, 1);
    SingleBandLineFlag(x, 2, 3, Some(9), 0, 2); SingleBandLineFlag(y, 2, 3, Some(9), 0, 2);
    SingleBandLineFlag(x, 2, 3, Some(9), 1, 0); SingleBandLineFlag(y, 2, 3, Some(9), 1, 0);
    SingleBandLineFlag(x, 2, 3, Some(9), 1, 1); SingleBandLineFlag(y, 2, 3, Some(9), 1, 1);
    SingleBandLineFlag(x, 2, 3, Some(9), 1, 2); SingleBandLineFlag(y, 2, 3, Some(9), 1, 2);
    var a := SingleBandFlagsAsWritten(x, 2, 3, Some(9));
    assert a[0 * 3 + 0] && a[0 * 3 + 1] && a[0 * 3 + 2];
    assert !a[1 * 3 + 0] && !a[1 * 3 + 1] && !a[1 * 3 + 2];
    var b := SingleBandFlagsAsWritten(y, 2, 3, Some(9));
    assert !b[0 * 3 + 0] && !b[0 * 3 + 1] && !b[0 * 3 + 2];
    assert !b[1 * 3 + 0] && !b[1 * 3 + 1] && !b[1 * 3 + 2];
  }

  /** The shape of a mask window (or of band 1 of a block). */
  function MaskShape(h: nat, w: nat, cube: bool): (s: seq<nat>)
    ensures Product(s) == h * w
  {
    if cube then
      ProductPair(h, w);
      [h, w]
    else
      ProductSingle(h * w);
      [h * w]
  }

  // ---------------------------------------------------------------------
  // _filter_nodata

  /** `check == nodata` pixel by pixel; a missing no-data value matches
      nothing. */
  function NodataFlags(check: seq<int>, nodata: Option<int>): (flags: seq<bool>)
    ensures |flags| == |check|
  {
    seq(|check|, q requires 0 <= q < |check| => nodata == Some(check[q]))
  }

  /** `np.logical_or(mask == False, check == nodata)` with the mask window
      broadcast to the block's layout. */
  function MaskFlags(check: seq<int>, checkShape: seq<nat>, cells: seq<int>, maskShape: seq<nat>,
                     nodata: Option<int>): (r: Result<seq<bool>>)
    requires |check| == Product(checkShape) && |cells| == Product(maskShape)
    ensures r.Ok? <==> BroadcastableTo(maskShape, checkShape)
    ensures r.Err? ==> r.error == ShapeMismatch
    ensures r.Ok? ==> |r.value| == |check|
  {
    if !BroadcastableTo(maskShape, checkShape) then Err(ShapeMismatch)
    else Ok(seq(|check|, q requires 0 <= q < |check| =>
                cells[SourceIndex(maskShape, checkShape, q)] == 0 || nodata == Some(check[q])))
  }

  /** `_filter_nodata`, one flag per pixel of an `h` by `w` window whose band
      1 values are `check`, given the mask window of the tile (`hm` by `wm`)
      when a mask raster is set. The mask window takes the block's layout. */
  function FilterNoData(check: seq<int>, h: nat, w: nat, cube: bool,
                        maskCells: Option<seq<int>>, hm: nat, wm: nat, nodata: Option<int>): (r: Result<seq<bool>>)
    requires |check| == h * w
    requires maskCells.Some? ==> |maskCells.value| == hm * wm
    ensures r.Ok? ==> |r.value| == h * w
    ensures r.Err? ==> r.error == ShapeMismatch
  {
    match maskCells
    case None => Ok(NodataFlags(check, nodata))
    case Some(cells) => MaskFlags(check, MaskShape(h, w, cube), cells, MaskShape(hm, wm, cube), nodata)
  }

  /** `_filter_nodata` as written: the mask window is flattened whenever
      `return_3d` is off, even for a block read in 3-D for a spatial
      function; and without a mask, `tmpMask[np.where(check == nodata), :]`
      on a 3-D block takes the tuple (lines, columns) of the no-data pixels
      as one index array of the first axis. */
  function FilterNoDataAsWritten(check: seq<int>, h: nat, w: nat, return3d: bool, force3d: bool,
                                 maskCells: Option<seq<int>>, hm: nat, wm: nat, nodata: Option<int>): Result<seq<bool>>
    requires |check| == h * w
    requires maskCells.Some? ==> |maskCells.value| == hm * wm
  {
    match maskCells
    case Some(cells) =>
      MaskFlags(check, MaskShape(h, w, return3d || force3d), cells, MaskShape(hm, wm, return3d), nodata)
    case None =>
      if !return3d && force3d && nodata.Some? then WhereTupleFlags(check, h, w, nodata.value)
      else Ok(NodataFlags(check, nodata))
  }

  /** The lines that `a[(rows, cols), :] = True` marks: every line whose
      number is the line or the column of a pixel equal to `v`; a column
      number past the last line raises IndexError. */
  function WhereTupleFlags(check: seq<int>, h: nat, w: nat, v: int): Result<seq<bool>>
    requires |check| == h * w
  {
    if w == 0 then Ok([])
    else if exists q :: 0 <= q < h * w && check[q] == v && q % w >= h then Err(IndexOutOfRange)
    else Ok(seq(h * w, p requires 0 <= p < h * w => LineMarked(check, h, w, v, p / w)))
  }

  predicate LineMarked(check: seq<int>, h: nat, w: nat, v: int, line: int)
    requires |check| == h * w && w > 0
  {
    exists q :: 0 <= q < h * w && check[q] == v && (q / w == line || q % w == line)
  }

  /** A 3-D read in 2-D mode with a mask: as written the flattened mask of a
      2 x 2 tile does not broadcast against its 2 x 2 band 1; corrected, it
      does and no pixel of an unmasked tile is flagged. */
  lemma CubeMaskAsWritten()
    ensures FilterNoDataAsWritten([1, 1, 1, 1], 2, 2, false, true, Some([1, 1, 1, 1]), 2, 2, None) == Err(ShapeMismatch)
    ensures FilterNoData([1, 1, 1, 1], 2, 2, true, Some([1, 1, 1, 1]), 2, 2, None) == Ok([false, false, false, false])
  {
    assert !BroadcastableTo([4], [2, 2]) by {
      assert Last([4]) == 4 && Last([2, 2]) == 2;
    }
    assert MaskShape(2, 2, false) == [4];
    var shape := MaskShape(2, 2, true);
    assert shape == [2, 2];
    assert BroadcastableTo(shape, shape) by { BroadcastableRefl(shape); }
    var r := FilterNoData([1, 1, 1, 1], 2, 2, true, Some([1, 1, 1, 1]), 2, 2, None);
    assert r.Ok?;
    assert r.value == [false, false, false, false];
  }

  /** A 3-D read in 2-D mode without a mask, where only the pixel at line 0,
      column 1 holds the no-data value 9: as written lines 0 and 1 are both
      marked, corrected only that pixel is. */
  lemma WhereTupleAsWritten()
    ensures FilterNoDataAsWritten([0, 9, 0, 0], 2, 2, false, true, None, 2, 2, Some(9)) == Ok([true, true, true, true])
    ensures FilterNoData([0, 9, 0, 0], 2, 2, true, None, 2, 2, Some(9)) == Ok([false, true, false, false])
  {
    var check := [0, 9, 0, 0];
    assert forall q :: 0 <= q < 4 && check[q] == 9 ==> q == 1;
    assert check[1] == 9 && 1 / 2 == 0 && 1 % 2 == 1;
    assert LineMarked(check, 2, 2, 9, 0);
    assert LineMarked(check, 2, 2, 9, 1);
    var r := WhereTupleFlags(check, 2, 2, 9);
    assert r.Ok?;
    assert r.value == [true, true, true, true] by {
      forall p | 0 <= p < 4 ensures r.value[p] {
        assert p / 2 == 0 || p / 2 == 1;
      }
    }
    assert NodataFlags(check, Some(9)) == [false, true, false, false];
  }

  /** With the mask window of the same size as the read, a pixel is flagged
      exactly when its mask value is 0 or its band 1 is the no-data value. */
  lemma FilterSameWindow(check: seq<int>, h: nat, w: nat, cube: bool, maskCells: Option<seq<int>>,
                         nodata: Option<int>, q: nat)
    requires |check| == h * w && q < h * w
    requires maskCells.Some? ==> |maskCells.value| == h * w
    ensures var r := FilterNoData(check, h, w, cube, maskCells, h, w, nodata);
      r.Ok? && (r.value[q] <==> (maskCells.Some? && maskCells.value[q] == 0) || nodata == Some(check[q]))
  {
    if maskCells.Some? {
      var s := MaskShape(h, w, cube);
      SourceIndexSame(s, q);
    }
  }

  /** A spatial window read around one pixel: the centre's mask value is
      broadcast over the window, so a pixel of the window is flagged when the
      centre is masked or the pixel holds the no-data value. */
  lemma FilterCentreWindow(check: seq<int>, h: nat, w: nat, cube: bool, maskCells: Option<seq<int>>,
                           nodata: Option<int>, q: nat)
    requires |check| == h * w && q < h * w
    requires maskCells.Some? ==> |maskCells.value| == 1
    ensures var r := FilterNoData(check, h, w, cube, maskCells, 1, 1, nodata);
      r.Ok? && (r.value[q] <==> (maskCells.Some? && maskCells.value[0] == 0) || nodata == Some(check[q]))
  {
    if maskCells.Some? {
      var ms, cs := MaskShape(1, 1, cube), MaskShape(h, w, cube);
      assert BroadcastableTo(ms, cs) by {
        if cube {
          assert ms == [1, 1] && Init(ms) == [1] && Init([1]) == [];
          assert Init(cs) == [h];
        } else {
          assert ms == [1] && Init(ms) == [];
        }
      }
    }
  }

  // ---------------------------------------------------------------------
  // Block masks

  /** The block mask: a pixel's flag repeated over its bands (`np.repeat` in
      3-D mode, the `[t, :]` assignment in 2-D mode). */
  function MaskOf(flags: seq<bool>, bands: nat): (mask: seq<bool>)
    requires bands > 0
    ensures |mask| == |flags| * bands
  {
    seq(|flags| * bands, e requires 0 <= e < |flags| * bands => MaskBit(flags, bands, e))
  }

  function MaskBit(flags: seq<bool>, bands: nat, e: nat): bool
    requires bands > 0 && e < |flags| * bands
  {
    IndexOfPair(e, |flags|, bands);
    flags[e / bands]
  }

  /** Every band of pixel `p` carries the pixel's flag. */
  lemma MaskOfAt(flags: seq<bool>, bands: nat, p: nat, b: nat)
    requires bands > 0 && p < |flags| && b < bands
    ensures p * bands + b < |MaskOf(flags, bands)|
    ensures MaskOf(flags, bands)[p * bands + b] == flags[p]
  {
    PairBound(p, b, |flags|, bands);
    PairOfIndex(p, b, bands);
  }

  /** `X.mask[:, 0]` of a 2-D block of `n` pixels. */
  function FirstColumn(mask: seq<bool>, bands: nat, n: nat): (col: seq<bool>)
    requires bands > 0 && |mask| == n * bands
    ensures |col| == n
  {
    seq(n, p requires 0 <= p < n => MaskColumnBit(mask, bands, n, p))
  }

  function MaskColumnBit(mask: seq<bool>, bands: nat, n: nat, p: nat): bool
    requires bands > 0 && |mask| == n * bands && p < n
  {
    PairBound(p, 0, n, bands);
    mask[p * bands]
  }

  /** The first column of a block mask gives back the pixel flags. */
  lemma FirstColumnOfMask(flags: seq<bool>, bands: nat)
    requires bands > 0
    ensures FirstColumn(MaskOf(flags, bands), bands, |flags|) == flags
  {
    var col := FirstColumn(MaskOf(flags, bands), bands, |flags|);
    forall p | 0 <= p < |flags| ensures col[p] == flags[p] {
      MaskOfAt(flags, bands, p, 0);
    }
  }

  /** Every element of a block mask is set exactly when every pixel flag is. */
  lemma MaskOfAll(flags: seq<bool>, bands: nat, value: bool)
    requires bands > 0
    ensures (forall e :: 0 <= e < |MaskOf(flags, bands)| ==> MaskOf(flags, bands)[e] == value)
        <==> (forall p :: 0 <= p < |flags| ==> flags[p] == value)
  {
    var m := MaskOf(flags, bands);
    if forall p :: 0 <= p < |flags| ==> flags[p] == value {
      forall e | 0 <= e < |m| ensures m[e] == value {
        IndexOfPair(e, |flags|, bands);
      }
    }
    if forall e :: 0 <= e < |m| ==> m[e] == value {
      forall p | 0 <= p < |flags| ensures flags[p] == value {
        MaskOfAt(flags, bands, p, 0);
      }
    }
  }

  // ---------------------------------------------------------------------
  // _generate_block_array

  /** The read window of tile `t` grown by `offset` and clamped to the grid. */
  function ReadWindow(src: Source, t: Tile, offset: nat): (win: Tile)
    requires Inside(t, src.image.nColumns, src.image.nLines)
    ensures Inside(win, src.image.nColumns, src.image.nLines)
    ensures offset == 0 ==> win == t
    ensures win.col <= t.col && win.row <= t.row
    ensures t.col + t.width <= win.col + win.width && t.row + t.height <= win.row + win.height
  {
    WindowInBounds(t, offset, src.image.nColumns, src.image.nLines);
    ExpandedTile(t, ClampedOffsets(t, offset, src.image.nColumns, src.image.nLines))
  }

  /** The pixels of the read window, line by line. */
  function WindowPixelsOf(src: Source, t: Tile, offset: nat): (px: seq<seq<int>>)
    requires SourceValid(src) && Inside(t, src.image.nColumns, src.image.nLines)
    ensures var win := ReadWindow(src, t, offset);
      |px| == win.height * win.width && AllRowsHave(px, src.image.nBands)
  {
    var win := ReadWindow(src, t, offset);
    WindowPixels(src.image, win);
    Window(src.image.pixels, win)
  }

  /** The mask window of the tile itself (the offset does not apply to it). */
  function MaskCells(src: Source, t: Tile): (cells: Option<seq<int>>)
    requires SourceValid(src) && Inside(t, src.image.nColumns, src.image.nLines)
    ensures cells.Some? <==> src.mask.Some?
    ensures cells.Some? ==> |cells.value| == t.height * t.width
  {
    if src.mask.Some? then Some(Window(src.mask.value, t)) else None
  }

  /** The per-pixel flags `_filter_nodata` computes for the read. */
  function BlockFlags(src: Source, t: Tile, offset: nat, force3d: bool): (r: Result<seq<bool>>)
    requires SourceValid(src) && Inside(t, src.image.nColumns, src.image.nLines)
    ensures r.Err? ==> r.error == ShapeMismatch
    ensures var win := ReadWindow(src, t, offset); r.Ok? ==> |r.value| == win.height * win.width
  {
    var win := ReadWindow(src, t, offset);
    FilterNoData(FirstBand(WindowPixelsOf(src, t, offset)), win.height, win.width, src.return3d || force3d,
                 MaskCells(src, t), t.height, t.width, src.image.nodata)
  }

  /** The window's pixels, band values interleaved, in C order. */
  function BlockData(src: Source, t: Tile, offset: nat): (d: seq<int>)
    requires SourceValid(src) && Inside(t, src.image.nColumns, src.image.nLines)
    ensures var win := ReadWindow(src, t, offset); |d| == (win.height * win.width) * src.image.nBands
  {
    var px := WindowPixelsOf(src, t, offset);
    FlattenLength(px, src.image.nBands);
    Flatten(px)
  }

  /** Element `b` of window pixel `(i, j)` is band `b` of the raster pixel
      under it. */
  lemma BlockDataAt(src: Source, t: Tile, offset: nat, i: nat, j: nat, b: nat)
    requires SourceValid(src) && Inside(t, src.image.nColumns, src.image.nLines)
    requires var win := ReadWindow(src, t, offset); i < win.height && j < win.width
    requires b < src.image.nBands
    ensures var win := ReadWindow(src, t, offset);
      && win.row + i < src.image.nLines && win.col + j < src.image.nColumns
      && 0 <= i * win.width + j < win.height * win.width
      && 0 <= (i * win.width + j) * src.image.nBands + b
    ensures var win := ReadWindow(src, t, offset);
      && (i * win.width + j) * src.image.nBands + b < |BlockData(src, t, offset)|
      && BlockData(src, t, offset)[(i * win.width + j) * src.image.nBands + b]
         == Band(src.image, win.row + i, win.col + j, b)
  {
    var win := ReadWindow(src, t, offset);
    var px := WindowPixelsOf(src, t, offset);
    var p := i * win.width + j;
    assert p < |px| && px[p] == src.image.pixels[win.row + i][win.col + j] by {
      WindowPixels(src.image, win);
      WindowAt(src.image.pixels, win, i, j);
    }
    assert 0 <= p * src.image.nBands + b;
    FlattenAt(px, src.image.nBands, p, b);
  }

  /** `_generate_block_array(col, row, width, height, offset, mask, force_3d)`
      for one input raster: the window's pixels in the block layout, each
      element masked where `_filter_nodata` flags its pixel. */
  function ReadBlock(src: Source, t: Tile, offset: nat, force3d: bool): (r: Result<Masked>)
    requires SourceValid(src) && Inside(t, src.image.nColumns, src.image.nLines)
    ensures r.Err? <==> BlockFlags(src, t, offset, force3d).Err?
    ensures r.Err? ==> r.error == ShapeMismatch
    ensures r.Ok? ==> var win := ReadWindow(src, t, offset);
      && r.value.arr.shape == BlockShape(win.height, win.width, src.image.nBands, src.return3d || force3d)
      && r.value.arr.dtype == src.image.dtype
      && r.value.arr.data == BlockData(src, t, offset)
      && r.value.mask == MaskOf(BlockFlags(src, t, offset, force3d).value, src.image.nBands)
      && MaskedValid(r.value)
  {
    var img := src.image;
    var win := ReadWindow(src, t, offset);
    var arr := NdArray(BlockShape(win.height, win.width, img.nBands, src.return3d || force3d),
                       BlockData(src, t, offset), img.dtype);
    match BlockFlags(src, t, offset, force3d)
    case Err(e) => Err(e)
    case Ok(flags) => Ok(Masked(arr, MaskOf(flags, img.nBands)))
  }

  /** The pixel flag `run` and `get_block` use: masked by the mask raster
      (value 0) or holding the no-data value in band 1. */
  predicate Flagged(src: Source, r: nat, c: nat)
    requires SourceValid(src) && r < src.image.nLines && c < src.image.nColumns
  {
    (src.mask.Some? && src.mask.value[r][c] == 0) || src.image.nodata == Some(src.image.pixels[r][c][0])
  }

  /** Without offset the flags never fail and pixel `(i, j)` of the tile is
      flagged exactly when the raster pixel under it is. */
  lemma TileFlagsAt(src: Source, t: Tile, force3d: bool, i: nat, j: nat)
    requires SourceValid(src) && Inside(t, src.image.nColumns, src.image.nLines)
    requires i < t.height && j < t.width
    ensures var f := BlockFlags(src, t, 0, force3d);
      f.Ok? && i * t.width + j < |f.value| && f.value[i * t.width + j] == Flagged(src, t.row + i, t.col + j)
  {
    var px := WindowPixelsOf(src, t, 0);
    var p := i * t.width + j;
    WindowAt(src.image.pixels, t, i, j);
    if src.mask.Some? {
      WindowAt(src.mask.value, t, i, j);
    }
    FilterSameWindow(FirstBand(px), t.height, t.width, src.return3d || force3d, MaskCells(src, t), src.image.nodata, p);
  }

  /** A read without offset never fails. */
  lemma ReadTileOk(src: Source, t: Tile, force3d: bool)
    requires SourceValid(src) && Inside(t, src.image.nColumns, src.image.nLines)
    ensures BlockFlags(src, t, 0, force3d).Ok? && ReadBlock(src, t, 0, force3d).Ok?
  {
    if t.height > 0 && t.width > 0 {
      TileFlagsAt(src, t, force3d, 0, 0);
    } else if src.mask.Some? {
      assert t.height * t.width == 0;
      BroadcastableRefl(MaskShape(t.height, t.width, src.return3d || force3d));
    }
  }

  /** The flags of a spatial window around the pixel at line `y`, column `x`:
      window pixel `(i, j)` is flagged when the centre is masked or when that
      pixel holds the no-data value. */
  lemma CentreFlagsAt(src: Source, x: nat, y: nat, offset: nat, i: nat, j: nat)
    requires SourceValid(src) && x < src.image.nColumns && y < src.image.nLines
    requires var win := ReadWindow(src, Tile(x, y, 1, 1), offset); i < win.height && j < win.width
    ensures var win := ReadWindow(src, Tile(x, y, 1, 1), offset);
      var f := BlockFlags(src, Tile(x, y, 1, 1), offset, true);
      && f.Ok? && 0 <= i * win.width + j < |f.value|
      && (f.value[i * win.width + j] <==>
            ((src.mask.Some? && src.mask.value[y][x] == 0)
             || src.image.nodata == Some(src.image.pixels[win.row + i][win.col + j][0])))
  {
    var t := Tile(x, y, 1, 1);
    var win := ReadWindow(src, t, offset);
    var h: nat, w: nat := win.height, win.width;
    var px := WindowPixelsOf(src, t, offset);
    var check := FirstBand(px);
    WindowAt(src.image.pixels, win, i, j);
    MulMono(0, i, w);
    var p: nat := i * w + j;
    assert check[p] == src.image.pixels[win.row + i][win.col + j][0];
    var cells := MaskCells(src, t);
    if src.mask.Some? {
      WindowAt(src.mask.value, t, 0, 0);
      assert cells.value[0] == src.mask.value[y][x];
    }
    FilterCentreWindow(check, h, w, true, cells, src.image.nodata, p);
    assert BlockFlags(src, t, offset, true) == FilterNoData(check, h, w, true, cells, 1, 1, src.image.nodata);
  }

  // ---------------------------------------------------------------------
  // _manage_2d_mask and get_block

  /** Kept rows keep their width. */
  lemma {:induction false} KeepRows(rows: seq<seq<int>>, flags: seq<bool>, n: nat)
    requires |rows| == |flags| && AllRowsHave(rows, n)
    ensures AllRowsHave(Keep(rows, flags), n)
  {
    if rows != [] {
      KeepRows(rows[1..], flags[1..], n);
    }
  }

  /** `_return_unmasked_X`: `X[~X.mask[:, 0], :].data`, the rows of the
      unmasked pixels in their order. */
  function DropMasked(x: Masked, n: nat, bands: nat): (a: Array)
    requires bands > 0 && x.arr.shape == [n, bands] && MaskedValid(x) && |x.mask| == n * bands
    ensures a.shape == [CountUnmasked(FirstColumn(x.mask, bands, n)), bands] && a.dtype == x.arr.dtype
    ensures |a.data| == a.shape[0] * bands
  {
    ProductPair(n, bands);
    var rows := AsRows(x.arr.data, bands, n);
    var flags := FirstColumn(x.mask, bands, n);
    var kept := Keep(rows, flags);
    KeepRows(rows, flags, bands);
    FlattenLength(kept, bands);
    ProductPair(|kept|, bands);
    NdArray([|kept|, bands], Flatten(kept), x.arr.dtype)
  }

  /** The rows `DropMasked` keeps: exactly the unmasked rows, in order. */
  lemma DropMaskedRows(x: Masked, n: nat, bands: nat)
    requires bands > 0 && x.arr.shape == [n, bands] && MaskedValid(x) && |x.mask| == n * bands
    ensures var a := DropMasked(x, n, bands);
      AsRows(a.data, bands, a.shape[0]) == Keep(AsRows(x.arr.data, bands, n), FirstColumn(x.mask, bands, n))
  {
    var rows := AsRows(x.arr.data, bands, n);
    var flags := FirstColumn(x.mask, bands, n);
    KeepRows(rows, flags, bands);
    AsRowsFlatten(Keep(rows, flags), bands);
  }

  /** The masked block of tile `t`, or in 2-D mode without `force_3d` its
      unmasked rows. */
  function BlockInput(src: Source, t: Tile, offset: nat, force3d: bool): (r: Result<FunInput>)
    requires SourceValid(src) && Inside(t, src.image.nColumns, src.image.nLines)
    ensures r.Ok? <==> ReadBlock(src, t, offset, force3d).Ok?
    ensures r.Ok? && !force3d && !src.return3d ==> r.value.Plain? && |r.value.a.shape| == 2
    ensures r.Ok? && (force3d || src.return3d) ==>
      r.value.MaskedIn? && MaskedValid(r.value.m) && |r.value.m.arr.shape| == 3
  {
    match ReadBlock(src, t, offset, force3d)
    case Err(e) => Err(e)
    case Ok(x) =>
      var win := ReadWindow(src, t, offset);
      if !force3d && !src.return3d then
        Ok(Plain(DropMasked(x, win.height * win.width, src.image.nBands)))
      else Ok(MaskedIn(x))
  }

  /** `get_block(block_number, offset, force_3d)` for one input raster. */
  function GetBlock(src: Source, xBlock: nat, yBlock: nat, blockNumber: int, offset: nat, force3d: bool): (r: Result<FunInput>)
    requires SourceValid(src) && xBlock > 0 && yBlock > 0 && src.image.nColumns > 0
    ensures GetBlockTile(src.image.nColumns, src.image.nLines, xBlock, yBlock, blockNumber).Err? ==> r.Err?
  {
    var img := src.image;
    match GetBlockTile(img.nColumns, img.nLines, xBlock, yBlock, blockNumber)
    case Err(e) => Err(e)
    case Ok(t) =>
      BlockTileInside(img.nColumns, img.nLines, xBlock, yBlock, blockNumber);
      BlockInput(src, t, offset, force3d)
  }

  /** Any tile the lookup returns lies in the grid. */
  lemma BlockTileInside(nColumns: nat, nLines: nat, xBlock: nat, yBlock: nat, blockNumber: int)
    requires xBlock > 0 && yBlock > 0 && nColumns > 0
    ensures var r := BlockTile(nColumns, nLines, xBlock, yBlock, blockNumber);
      r.Ok? ==> Inside(r.value, nColumns, nLines) && r.value.width > 0 && r.value.height > 0
  {
    var rows, cols := Range(0, nLines, yBlock), Range(0, nColumns, xBlock);
    var r := BlockTile(nColumns, nLines, xBlock, yBlock, blockNumber);
    if r.Ok? {
      var rn, cn := TruncDiv(blockNumber, |cols|), blockNumber % |cols|;
      var a := if rn >= 0 then rn else |rows| + rn;
      var b := if cn >= 0 then cn else |cols| + cn;
      RangeAt(0, nLines, yBlock, a);
      RangeAt(0, nColumns, xBlock, b);
      BlockStartInside(nLines, yBlock, a);
      BlockStartInside(nColumns, xBlock, b);
    }
  }

  /** `get_block` of a number below `n_blocks` reads tile `blockNumber` of
      `_iter_block` and does not fail. */
  lemma GetBlockOk(src: Source, xBlock: nat, yBlock: nat, blockNumber: nat, force3d: bool)
    requires SourceValid(src) && xBlock > 0 && yBlock > 0 && src.image.nColumns > 0
    requires blockNumber < NBlocks(src.image.nColumns, src.image.nLines, xBlock, yBlock)
    ensures var t := IterBlock(src.image.nColumns, src.image.nLines, xBlock, yBlock)[blockNumber];
      && Inside(t, src.image.nColumns, src.image.nLines)
      && GetBlock(src, xBlock, yBlock, blockNumber, 0, force3d) == BlockInput(src, t, 0, force3d)
      && GetBlock(src, xBlock, yBlock, blockNumber, 0, force3d).Ok?
  {
    var img := src.image;
    GetBlockMatchesIterBlock(img.nColumns, img.nLines, xBlock, yBlock, blockNumber);
    TileInside(img.nColumns, img.nLines, xBlock, yBlock, blockNumber);
    ReadTileOk(src, IterBlock(img.nColumns, img.nLines, xBlock, yBlock)[blockNumber], force3d);
  }

  /** True when `get_random_block` stops at this block: it holds at least one
      element and not every element is masked. */
  predicate NotFullyMasked(x: FunInput) {
    match x
    case Plain(a) => |a.data| > 0
    case MaskedIn(m) => |m.arr.data| > 0 && exists e :: 0 <= e < |m.mask| && !m.mask[e]
  }

  // ---------------------------------------------------------------------
  // random_block[:3, :3, ...]

  /** The first three rows and the first three columns of a 2-D array. */
  function SliceRows(a: Array, n: nat, m: nat): (r: Array)
    requires a.shape == [n, m]
    ensures r.shape == [Min(n, 3), Min(m, 3)] && r.dtype == a.dtype
  {
    ProductPair(n, m);
    var rows := AsRows(a.data, m, n);
    var cut := seq(Min(n, 3), i requires 0 <= i < Min(n, 3) => rows[i][..Min(m, 3)]);
    FlattenLength(cut, Min(m, 3));
    ProductPair(Min(n, 3), Min(m, 3));
    NdArray([Min(n, 3), Min(m, 3)], Flatten(cut), a.dtype)
  }

  /** The first three lines and columns of a 3-D block, all bands, with its
      mask cut the same way. */
  function SliceCube(x: Masked, h: nat, w: nat, bands: nat): (r: Masked)
    requires x.arr.shape == [h, w, bands] && MaskedValid(x)
    ensures r.arr.shape == [Min(h, 3), Min(w, 3), bands] && MaskedValid(r) && r.arr.dtype == x.arr.dtype
  {
    ProductTriple(h, w, bands);
    var data := CutCube(x.arr.data, h, w, bands, Min(h, 3), Min(w, 3));
    var mask := CutCube(x.mask, h, w, bands, Min(h, 3), Min(w, 3));
    ProductTriple(Min(h, 3), Min(w, 3), bands);
    Masked(NdArray([Min(h, 3), Min(w, 3), bands], data, x.arr.dtype), mask)
  }

  /** The first `h2` lines and `w2` columns of an `h` by `w` by `bands` buffer. */
  function CutCube<T>(data: seq<T>, h: nat, w: nat, bands: nat, h2: nat, w2: nat): (r: seq<T>)
    requires |data| == (h * w) * bands && h2 <= h && w2 <= w
    ensures |r| == (h2 * w2) * bands
  {
    var pixels := AsRows(data, bands, h * w);
    var cells := seq(h2 * w2, q requires 0 <= q < h2 * w2 => CubeCell(pixels, h, w, h2, w2, q));
    FlattenLength(cells, bands);
    Flatten(cells)
  }

  function CubeCell<T>(pixels: seq<T>, h: nat, w: nat, h2: nat, w2: nat, q: nat): (cell: T)
    requires |pixels| == h * w && h2 <= h && w2 <= w && q < h2 * w2
    ensures cell in pixels
  {
    assert w2 > 0;
    IndexOfPair(q, h2, w2);
    PairBound(q / w2, q % w2, h, w);
    pixels[(q / w2) * w + q % w2]
  }

  /** The first three rows of a 2-D array, all columns. */
  function HeadRows(a: Array, n: nat, m: nat): (r: Array)
    requires a.shape == [n, m]
    ensures r.shape == [Min(n, 3), m] && r.dtype == a.dtype
    ensures Min(n, 3) * m <= |a.data| && r.data == a.data[..Min(n, 3) * m]
  {
    ProductPair(n, m);
    ProductPair(Min(n, 3), m);
    MulMono(Min(n, 3), n, m);
    NdArray([Min(n, 3), m], a.data[..Min(n, 3) * m], a.dtype)
  }

  /** As written, the probe `_check_add_function` hands the user function:
      `random_block[:3, :3, ...]`, which on a 2-D block of pixels by bands
      also keeps only the first three bands. */
  function ProbeSliceAsWritten(x: FunInput): (r: FunInput)
    requires x.Plain? ==> |x.a.shape| == 2
    requires x.MaskedIn? ==> |x.m.arr.shape| == 3 && MaskedValid(x.m)
    ensures x.Plain? ==> r.Plain? && r.a.shape == [Min(x.a.shape[0], 3), Min(x.a.shape[1], 3)]
  {
    match x
    case Plain(a) => Plain(SliceRows(a, a.shape[0], a.shape[1]))
    case MaskedIn(m) => MaskedIn(SliceCube(m, m.arr.shape[0], m.arr.shape[1], m.arr.shape[2]))
  }

  /** The probe as evidently intended: at most three pixels of a 2-D block
      with all their bands, and at most three lines and columns of a cube
      with all its bands. */
  function ProbeSlice(x: FunInput): (r: FunInput)
    requires x.Plain? ==> |x.a.shape| == 2
    requires x.MaskedIn? ==> |x.m.arr.shape| == 3 && MaskedValid(x.m)
    ensures x.Plain? ==> r.Plain? && r.a.shape == [Min(x.a.shape[0], 3), x.a.shape[1]]
    ensures x.MaskedIn? ==> && r.MaskedIn? && MaskedValid(r.m)
                            && r.m.arr.shape == [Min(x.m.arr.shape[0], 3), Min(x.m.arr.shape[1], 3), x.m.arr.shape[2]]
  {
    match x
    case Plain(a) => Plain(HeadRows(a, a.shape[0], a.shape[1]))
    case MaskedIn(m) => MaskedIn(SliceCube(m, m.arr.shape[0], m.arr.shape[1], m.arr.shape[2]))
  }
}
