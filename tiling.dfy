/** The tile planner of RasterMath: `_iter_block`, `get_block`'s addressing,
    the per-axis choice of `custom_block_size`, the neighbourhood clamp of
    `_generate_block_array` and the per-pixel windows of
    `_iter_for_spatial_function`. */
module Tiling {
  import opened Arith
  import opened Outcomes

  /** A rectangle of the grid: first column, first line, width, height. */
  datatype Tile = Tile(col: int, row: int, width: int, height: int)

  function Min(a: int, b: int): int {
    if a <= b then a else b
  }

  /** True when the pixel at line `r`, column `c` lies in `t`. */
  predicate Contains(t: Tile, r: int, c: int) {
    t.row <= r < t.row + t.height && t.col <= c < t.col + t.width
  }

  /** Python's `range(start, stop, step)` for a positive step. */
  function Range(start: nat, stop: nat, step: nat): (r: seq<nat>)
    requires step > 0
    ensures |r| == if start < stop then CeilDiv(stop - start, step) else 0
    decreases stop - start
  {
    if start >= stop then []
    else
      var rest := Range(start + step, stop, step);
      assert 1 + |rest| == CeilDiv(stop - start, step) by {
        if stop - start > step { CeilDivStep(stop - start, step); } else { CeilDivSmall(stop - start, step); }
      }
      [start] + rest
  }

  /** Element `k` of the range is `start + k * step`. */
  lemma {:induction false} RangeAt(start: nat, stop: nat, step: nat, k: nat)
    requires step > 0 && k < |Range(start, stop, step)|
    ensures Range(start, stop, step)[k] == start + k * step
    decreases stop - start
  {
    if k > 0 {
      RangeAt(start + step, stop, step, k - 1);
      MulSucc(k - 1, step);
    }
  }

  // ---------------------------------------------------------------------
  // Nested generator loops

  /** One pass of an inner loop: `f(a, b)` for each `b` of `inner`. */
  function Row<A, B, T>(a: A, inner: seq<B>, f: (A, B) -> T): (r: seq<T>)
    ensures |r| == |inner|
    ensures forall j :: 0 <= j < |inner| ==> r[j] == f(a, inner[j])
  {
    seq(|inner|, j requires 0 <= j < |inner| => f(a, inner[j]))
  }

  lemma RowCons<A, B, T>(a: A, x: B, s: seq<B>, f: (A, B) -> T)
    ensures Row(a, [x] + s, f) == [f(a, x)] + Row(a, s, f)
  {
    var l, r := Row(a, [x] + s, f), [f(a, x)] + Row(a, s, f);
    assert |l| == |r|;
    forall j | 0 <= j < |l| ensures l[j] == r[j] {
      if j > 0 { assert ([x] + s)[j] == s[j - 1]; }
    }
  }

  /** What two nested `for` loops yield, outer loop first: one pass of the
      inner loop per element of the outer one. */
  function Nest<A, B, T>(outer: seq<A>, inner: seq<B>, f: (A, B) -> T): (r: seq<T>)
    ensures |r| == |outer| * |inner|
  {
    if outer == [] then []
    else
      MulSucc(|outer| - 1, |inner|);
      Row(outer[0], inner, f) + Nest(outer[1..], inner, f)
  }

  /** Element `k` of the nested loops comes from outer position `k / |inner|`
      and inner position `k % |inner|`. */
  lemma {:induction false} NestAt<A, B, T>(outer: seq<A>, inner: seq<B>, f: (A, B) -> T, k: nat)
    requires |inner| > 0 && k < |outer| * |inner|
    ensures Nest(outer, inner, f)[k] == f(outer[k / |inner|], inner[k % |inner|])
  {
    var m := |inner|;
    var rest := Nest(outer[1..], inner, f);
    if k < m {
      PairOfIndex(0, k, m);
    } else {
      ShiftIndex(k, |outer|, m);
      NestAt(outer[1..], inner, f, k - m);
      assert Nest(outer, inner, f)[k] == rest[k - m];
    }
  }

  // ---------------------------------------------------------------------
  // _iter_block

  /** The tile `_iter_block` yields at line `row` and column `col`: clipped
      to the grid at the right and bottom edges. */
  function MakeTile(nColumns: nat, nLines: nat, xBlock: nat, yBlock: nat, row: int, col: int): Tile {
    Tile(col, row, Min(nColumns - col, xBlock), Min(nLines - row, yBlock))
  }

  /** `MakeTile` for a fixed grid and block size, as the loop body of
      `_iter_block`. */
  function TileMaker(nColumns: nat, nLines: nat, xBlock: nat, yBlock: nat): (int, int) -> Tile {
    (row, col) => MakeTile(nColumns, nLines, xBlock, yBlock, row, col)
  }

  /** `n_blocks` of `custom_block_size`. */
  function NBlocks(nColumns: nat, nLines: nat, xBlock: nat, yBlock: nat): nat
    requires xBlock > 0 && yBlock > 0
  {
    CeilDiv(nLines, yBlock) * CeilDiv(nColumns, xBlock)
  }

  /** The tiles of `_iter_block`, in the order the generator yields them:
      lines step by `yBlock`, and within a line columns step by `xBlock`;
      there are `n_blocks` of them. */
  function IterBlock(nColumns: nat, nLines: nat, xBlock: nat, yBlock: nat): (tiles: seq<Tile>)
    requires xBlock > 0 && yBlock > 0
    ensures |tiles| == NBlocks(nColumns, nLines, xBlock, yBlock)
  {
    assert |Range(0, nLines, yBlock)| == CeilDiv(nLines, yBlock);
    assert |Range(0, nColumns, xBlock)| == CeilDiv(nColumns, xBlock);
    Nest(Range(0, nLines, yBlock), Range(0, nColumns, xBlock),
         TileMaker(nColumns, nLines, xBlock, yBlock))
  }

  /** The index of the tile holding line `r`, column `c`, in row-major order. */
  function TileIndexOf(nColumns: nat, xBlock: nat, yBlock: nat, r: nat, c: nat): int
    requires xBlock > 0 && yBlock > 0
  {
    (r / yBlock) * CeilDiv(nColumns, xBlock) + c / xBlock
  }

  /** The tile at block line `a` and block column `b` is tile `a * nx + b`
      and starts at line `a * yBlock`, column `b * xBlock`. */
  lemma IterBlockAtPair(nColumns: nat, nLines: nat, xBlock: nat, yBlock: nat, a: nat, b: nat)
    requires xBlock > 0 && yBlock > 0
    requires a < CeilDiv(nLines, yBlock) && b < CeilDiv(nColumns, xBlock)
    ensures var k := a * CeilDiv(nColumns, xBlock) + b;
      && k < NBlocks(nColumns, nLines, xBlock, yBlock)
      && IterBlock(nColumns, nLines, xBlock, yBlock)[k]
         == MakeTile(nColumns, nLines, xBlock, yBlock, a * yBlock, b * xBlock)
  {
    var rows, cols := Range(0, nLines, yBlock), Range(0, nColumns, xBlock);
    var f := TileMaker(nColumns, nLines, xBlock, yBlock);
    var nx, ny := |cols|, |rows|;
    var k := a * nx + b;
    assert k < ny * nx && k / nx == a && k % nx == b by {
      PairBound(a, b, ny, nx);
      PairOfIndex(a, b, nx);
    }
    assert IterBlock(nColumns, nLines, xBlock, yBlock)[k] == f(rows[a], cols[b]) by {
      NestAt(rows, cols, f, k);
    }
    assert rows[a] == a * yBlock by { RangeAt(0, nLines, yBlock, a); }
    assert cols[b] == b * xBlock by { RangeAt(0, nColumns, xBlock, b); }
  }

  /** Tile `i` of `_iter_block` is at block line `i / nx` and block column
      `i % nx`, with `nx` tiles per line. */
  lemma IterBlockAt(nColumns: nat, nLines: nat, xBlock: nat, yBlock: nat, i: nat)
    requires xBlock > 0 && yBlock > 0 && i < NBlocks(nColumns, nLines, xBlock, yBlock)
    ensures var nx := CeilDiv(nColumns, xBlock);
      nx > 0 && IterBlock(nColumns, nLines, xBlock, yBlock)[i]
        == MakeTile(nColumns, nLines, xBlock, yBlock, (i / nx) * yBlock, (i % nx) * xBlock)
  {
    var nx, ny := CeilDiv(nColumns, xBlock), CeilDiv(nLines, yBlock);
    assert nx > 0 by { if nx == 0 { MulCongr(ny, nx, 0); } }
    IndexOfPair(i, ny, nx);
    IterBlockAtPair(nColumns, nLines, xBlock, yBlock, i / nx, i % nx);
  }

  /** Tile `i` is non-empty, lies inside the grid, and has the clipped size
      `min(n_columns - col, x_block_size)` by `min(n_lines - row, y_block_size)`. */
  lemma TileInside(nColumns: nat, nLines: nat, xBlock: nat, yBlock: nat, i: nat)
    requires xBlock > 0 && yBlock > 0 && i < NBlocks(nColumns, nLines, xBlock, yBlock)
    ensures var t := IterBlock(nColumns, nLines, xBlock, yBlock)[i];
      && 0 <= t.col < nColumns && 0 <= t.row < nLines
      && t.width == Min(nColumns - t.col, xBlock) && t.height == Min(nLines - t.row, yBlock)
      && 1 <= t.width && t.col + t.width <= nColumns
      && 1 <= t.height && t.row + t.height <= nLines
  {
    IterBlockAt(nColumns, nLines, xBlock, yBlock, i);
    var nx, ny := CeilDiv(nColumns, xBlock), CeilDiv(nLines, yBlock);
    assert i / nx < ny && i % nx < nx by { IndexOfPair(i, ny, nx); }
    BlockStartInside(nColumns, xBlock, i % nx);
    BlockStartInside(nLines, yBlock, i / nx);
  }

  /** The tiles partition the grid: the pixel at line `r`, column `c` lies in
      tile `TileIndexOf(r, c)`. */
  lemma TileOfPixel(nColumns: nat, nLines: nat, xBlock: nat, yBlock: nat, r: nat, c: nat)
    requires xBlock > 0 && yBlock > 0
    requires r < nLines && c < nColumns
    ensures var k := TileIndexOf(nColumns, xBlock, yBlock, r, c);
      && 0 <= k < NBlocks(nColumns, nLines, xBlock, yBlock)
      && Contains(IterBlock(nColumns, nLines, xBlock, yBlock)[k], r, c)
  {
    var nx, ny := CeilDiv(nColumns, xBlock), CeilDiv(nLines, yBlock);
    var i, j := r / yBlock, c / xBlock;
    DivMod(r, yBlock);
    DivMod(c, xBlock);
    assert i < ny by {
      if i >= ny { MulMono(ny, i, yBlock); }
    }
    assert j < nx by {
      if j >= nx { MulMono(nx, j, xBlock); }
    }
    var k := i * nx + j;
    PairBound(i, j, ny, nx);
    PairOfIndex(i, j, nx);
    IterBlockAt(nColumns, nLines, xBlock, yBlock, k);
  }

  /** ... and in no other tile. */
  lemma TileOfPixelUnique(nColumns: nat, nLines: nat, xBlock: nat, yBlock: nat, r: nat, c: nat, k: nat)
    requires xBlock > 0 && yBlock > 0
    requires k < NBlocks(nColumns, nLines, xBlock, yBlock)
    requires Contains(IterBlock(nColumns, nLines, xBlock, yBlock)[k], r, c)
    ensures k == TileIndexOf(nColumns, xBlock, yBlock, r, c)
  {
    IterBlockAt(nColumns, nLines, xBlock, yBlock, k);
    var nx, ny := CeilDiv(nColumns, xBlock), CeilDiv(nLines, yBlock);
    IndexOfPair(k, ny, nx);
    InInterval(r, k / nx, yBlock);
    InInterval(c, k % nx, xBlock);
  }

  /** Both halves together: `TileIndexOf(r, c)` is the one tile holding the
      pixel. */
  lemma TileIndexExact(nColumns: nat, nLines: nat, xBlock: nat, yBlock: nat, r: nat, c: nat)
    requires xBlock > 0 && yBlock > 0
    requires r < nLines && c < nColumns
    ensures var k := TileIndexOf(nColumns, xBlock, yBlock, r, c);
      && 0 <= k < NBlocks(nColumns, nLines, xBlock, yBlock)
      && Contains(IterBlock(nColumns, nLines, xBlock, yBlock)[k], r, c)
    ensures forall k ::
      (0 <= k < NBlocks(nColumns, nLines, xBlock, yBlock) && Contains(IterBlock(nColumns, nLines, xBlock, yBlock)[k], r, c)) ==>
      k == TileIndexOf(nColumns, xBlock, yBlock, r, c)
  {
    TileOfPixel(nColumns, nLines, xBlock, yBlock, r, c);
    forall k | 0 <= k < NBlocks(nColumns, nLines, xBlock, yBlock) && Contains(IterBlock(nColumns, nLines, xBlock, yBlock)[k], r, c)
      ensures k == TileIndexOf(nColumns, xBlock, yBlock, r, c)
    {
      TileOfPixelUnique(nColumns, nLines, xBlock, yBlock, r, c, k);
    }
  }

  // ---------------------------------------------------------------------
  // The areas of the tiles sum to the area of the grid

  function Area(tiles: seq<Tile>): int {
    if tiles == [] then 0 else tiles[0].width * tiles[0].height + Area(tiles[1..])
  }

  lemma {:induction false} AreaConcat(a: seq<Tile>, b: seq<Tile>)
    ensures Area(a + b) == Area(a) + Area(b)
  {
    if a != [] {
      assert (a + b)[0] == a[0] && (a + b)[1..] == a[1..] + b;
      AreaConcat(a[1..], b);
    } else {
      assert a + b == b;
    }
  }

  /** The summed widths of a sequence of tiles. */
  function Widths(tiles: seq<Tile>): int {
    if tiles == [] then 0 else tiles[0].width + Widths(tiles[1..])
  }

  /** Tiles of one common height `h` cover `h` times their summed widths. */
  lemma {:induction false} AreaOfRow(tiles: seq<Tile>, h: int)
    requires forall k :: 0 <= k < |tiles| ==> tiles[k].height == h
    ensures Area(tiles) == h * Widths(tiles)
  {
    if tiles != [] {
      AreaOfRow(tiles[1..], h);
      Distrib(h, tiles[0].width, Widths(tiles[1..]));
    }
  }

  /** A line of tiles from column `start` on spans `nColumns - start`
      columns. */
  lemma {:induction false} RowWidths(nColumns: nat, nLines: nat, xBlock: nat, yBlock: nat, row: nat, start: nat)
    requires xBlock > 0 && yBlock > 0 && start <= nColumns
    ensures Widths(Row(row, Range(start, nColumns, xBlock), TileMaker(nColumns, nLines, xBlock, yBlock)))
            == nColumns - start
    decreases nColumns - start
  {
    var f := TileMaker(nColumns, nLines, xBlock, yBlock);
    if start < nColumns {
      var next := start + xBlock;
      var tail := Row(row, Range(next, nColumns, xBlock), f);
      assert Range(start, nColumns, xBlock) == [start] + Range(next, nColumns, xBlock);
      RowCons(row, start, Range(next, nColumns, xBlock), f);
      var r := [f(row, start)] + tail;
      assert r[0] == f(row, start) && r[1..] == tail;
      if next <= nColumns {
        RowWidths(nColumns, nLines, xBlock, yBlock, row, next);
      } else {
        assert tail == [];
      }
    }
  }

  /** A line of tiles at line `row` covers `h * nColumns` pixels, `h` being
      its clipped height. */
  lemma RowArea(nColumns: nat, nLines: nat, xBlock: nat, yBlock: nat, row: nat)
    requires xBlock > 0 && yBlock > 0
    ensures Area(Row(row, Range(0, nColumns, xBlock), TileMaker(nColumns, nLines, xBlock, yBlock)))
            == Min(nLines - row, yBlock) * nColumns
  {
    var r := Row(row, Range(0, nColumns, xBlock), TileMaker(nColumns, nLines, xBlock, yBlock));
    AreaOfRow(r, Min(nLines - row, yBlock));
    RowWidths(nColumns, nLines, xBlock, yBlock, row, 0);
  }

  /** The lines of tiles from line `start` down cover
      `nColumns * (nLines - start)` pixels. */
  lemma {:induction false} RowsArea(nColumns: nat, nLines: nat, xBlock: nat, yBlock: nat, start: nat)
    requires xBlock > 0 && yBlock > 0 && start <= nLines
    ensures Area(IterRows(nColumns, nLines, xBlock, yBlock, start)) == nColumns * (nLines - start)
    decreases nLines - start
  {
    if start < nLines {
      var next := start + yBlock;
      RowsAreaStep(nColumns, nLines, xBlock, yBlock, start);
      if next < nLines {
        RowsArea(nColumns, nLines, xBlock, yBlock, next);
      } else {
        assert Range(next, nLines, yBlock) == [];
      }
      SplitProduct(nColumns, Min(nLines - start, yBlock), nLines - start);
    }
  }

  /** The tiles of `_iter_block` from line `start` down. */
  function IterRows(nColumns: nat, nLines: nat, xBlock: nat, yBlock: nat, start: nat): seq<Tile>
    requires xBlock > 0 && yBlock > 0
  {
    Nest(Range(start, nLines, yBlock), Range(0, nColumns, xBlock), TileMaker(nColumns, nLines, xBlock, yBlock))
  }

  /** The first line of tiles from line `start` covers `h * nColumns` pixels. */
  lemma RowsAreaStep(nColumns: nat, nLines: nat, xBlock: nat, yBlock: nat, start: nat)
    requires xBlock > 0 && yBlock > 0 && start < nLines
    ensures Area(IterRows(nColumns, nLines, xBlock, yBlock, start))
            == Min(nLines - start, yBlock) * nColumns + Area(IterRows(nColumns, nLines, xBlock, yBlock, start + yBlock))
  {
    var f := TileMaker(nColumns, nLines, xBlock, yBlock);
    var cols := Range(0, nColumns, xBlock);
    var next := start + yBlock;
    assert Range(start, nLines, yBlock) == [start] + Range(next, nLines, yBlock);
    NestCons(start, Range(next, nLines, yBlock), cols, f);
    AreaConcat(Row(start, cols, f), Nest(Range(next, nLines, yBlock), cols, f));
    RowArea(nColumns, nLines, xBlock, yBlock, start);
  }

  /** The first pass of the outer loop comes first. */
  lemma NestCons<A, B, T>(x: A, s: seq<A>, inner: seq<B>, f: (A, B) -> T)
    ensures Nest([x] + s, inner, f) == Row(x, inner, f) + Nest(s, inner, f)
  {
    assert ([x] + s)[0] == x && ([x] + s)[1..] == s;
  }

  /** The tiles of `_iter_block` cover `n_columns * n_lines` pixels in all. */
  lemma TilesArea(nColumns: nat, nLines: nat, xBlock: nat, yBlock: nat)
    requires xBlock > 0 && yBlock > 0
    ensures Area(IterBlock(nColumns, nLines, xBlock, yBlock)) == nColumns * nLines
  {
    RowsArea(nColumns, nLines, xBlock, yBlock, 0);
  }

  // ---------------------------------------------------------------------
  // get_block addressing

  /** The tile `get_block(blockNumber)` reads, as written: only a number above
      `n_blocks` raises the ValueError; the line and column of the block are
      looked up in Python lists, so `n_blocks` itself raises IndexError and
      negative numbers count from the end. */
  function GetBlockTileAsWritten(nColumns: nat, nLines: nat, xBlock: nat, yBlock: nat, blockNumber: int): (r: Result<Tile>)
    requires xBlock > 0 && yBlock > 0 && nColumns > 0
  {
    if blockNumber > NBlocks(nColumns, nLines, xBlock, yBlock) then Err(BlockOutOfRange)
    else BlockTile(nColumns, nLines, xBlock, yBlock, blockNumber)
  }

  /** The lookup shared by both versions of `get_block`. */
  function BlockTile(nColumns: nat, nLines: nat, xBlock: nat, yBlock: nat, blockNumber: int): Result<Tile>
    requires xBlock > 0 && yBlock > 0 && nColumns > 0
  {
    var rows, cols := Range(0, nLines, yBlock), Range(0, nColumns, xBlock);
    var nx := |cols|;
    var rowNumber := TruncDiv(blockNumber, nx);
    var colNumber := blockNumber % nx;
    match PyIndex(rows, rowNumber)
    case Err(e) => Err(e)
    case Ok(row) =>
      match PyIndex(cols, colNumber)
      case Err(e) => Err(e)
      case Ok(col) => Ok(MakeTile(nColumns, nLines, xBlock, yBlock, row, col))
  }

  /** `get_block` with the bound the error message states: numbers from
      `n_blocks` on raise the ValueError. */
  function GetBlockTile(nColumns: nat, nLines: nat, xBlock: nat, yBlock: nat, blockNumber: int): (r: Result<Tile>)
    requires xBlock > 0 && yBlock > 0 && nColumns > 0
  {
    if blockNumber >= NBlocks(nColumns, nLines, xBlock, yBlock) then Err(BlockOutOfRange)
    else BlockTile(nColumns, nLines, xBlock, yBlock, blockNumber)
  }

  /** For every block number below `n_blocks` both versions address the same
      tile as the `i`-th tile of `_iter_block`. */
  lemma GetBlockMatchesIterBlock(nColumns: nat, nLines: nat, xBlock: nat, yBlock: nat, i: nat)
    requires xBlock > 0 && yBlock > 0 && nColumns > 0
    requires i < NBlocks(nColumns, nLines, xBlock, yBlock)
    ensures GetBlockTile(nColumns, nLines, xBlock, yBlock, i) == Ok(IterBlock(nColumns, nLines, xBlock, yBlock)[i])
    ensures GetBlockTileAsWritten(nColumns, nLines, xBlock, yBlock, i) == Ok(IterBlock(nColumns, nLines, xBlock, yBlock)[i])
  {
    IterBlockAt(nColumns, nLines, xBlock, yBlock, i);
    var nx, ny := CeilDiv(nColumns, xBlock), CeilDiv(nLines, yBlock);
    assert i / nx < ny && i % nx < nx by { IndexOfPair(i, ny, nx); }
    RangeAt(0, nLines, yBlock, i / nx);
    RangeAt(0, nColumns, xBlock, i % nx);
  }

  /** Block number `n_blocks`: the corrected lookup raises the ValueError,
      the lookup as written runs past the list of block lines. */
  lemma GetBlockAtNBlocks(nColumns: nat, nLines: nat, xBlock: nat, yBlock: nat)
    requires xBlock > 0 && yBlock > 0 && nColumns > 0
    ensures var n := NBlocks(nColumns, nLines, xBlock, yBlock);
      && GetBlockTileAsWritten(nColumns, nLines, xBlock, yBlock, n) == Err(IndexOutOfRange)
      && GetBlockTile(nColumns, nLines, xBlock, yBlock, n) == Err(BlockOutOfRange)
  {
    var nx, ny := CeilDiv(nColumns, xBlock), CeilDiv(nLines, yBlock);
    PairOfIndex(ny, 0, nx);
  }

  /** The corrected lookup fails for a non-negative number exactly from
      `n_blocks` on. */
  lemma GetBlockTileBound(nColumns: nat, nLines: nat, xBlock: nat, yBlock: nat, i: nat)
    requires xBlock > 0 && yBlock > 0 && nColumns > 0
    ensures GetBlockTile(nColumns, nLines, xBlock, yBlock, i).Ok? <==> i < NBlocks(nColumns, nLines, xBlock, yBlock)
  {
    if i < NBlocks(nColumns, nLines, xBlock, yBlock) {
      GetBlockMatchesIterBlock(nColumns, nLines, xBlock, yBlock, i);
    }
  }

  // ---------------------------------------------------------------------
  // custom_block_size, one axis

  /** A block-size argument: False (or another falsy value), an int, or a
      float written as the fraction `num / den`. */
  datatype BlockSizeArg = Unset | Pixels(n: int) | Fraction(num: int, den: int)

  /** The values the docstring allows: -1, a positive count, a positive
      fraction, or a falsy value. */
  predicate SupportedArg(a: BlockSizeArg) {
    match a
    case Unset => true
    case Pixels(n) => n >= -1
    case Fraction(num, den) => den > 0 && (num >= 0 || num == -den)
  }

  /** The block size one axis gets: falsy keeps the previous size, -1 (also
      -1.0) takes the whole dimension, a float takes `ceil(n * f)`, an int is
      taken as it is. */
  function ResolveBlockSize(a: BlockSizeArg, n: nat, previous: nat): (size: nat)
    requires SupportedArg(a) && n > 0 && previous > 0
    ensures size > 0
    ensures a.Unset? || a == Pixels(0) || (a.Fraction? && a.num == 0) ==> size == previous
    ensures a == Pixels(-1) || (a.Fraction? && a.num == -a.den) ==> size == n
    ensures a.Pixels? && a.n > 0 ==> size == a.n
    ensures a.Fraction? && a.num > 0 ==> size * a.den >= n * a.num && (size - 1) * a.den < n * a.num
  {
    match a
    case Unset => previous
    case Pixels(k) => if k == 0 then previous else if k == -1 then n else k
    case Fraction(num, den) =>
      if num == 0 then previous
      else if num == -den then n
      else
        assert n * num >= 1 by { MulMono(1, n, num); }
        CeilDiv(n * num, den)
  }

  // ---------------------------------------------------------------------
  // The neighbourhood clamp of _generate_block_array

  /** A read window: the tile grown by a number of pixels on each edge. */
  datatype Offsets = Offsets(before: int, after: int, above: int, below: int)

  /** The clamp in closed form: offset `k` on each edge, cut to what fits
      between the tile and that edge of the grid. */
  function ClampedOffsets(t: Tile, offset: int, nColumns: int, nLines: int): (o: Offsets)
    requires 0 <= t.col && 0 <= t.row && t.col + t.width <= nColumns && t.row + t.height <= nLines
    ensures offset >= 0 ==> 0 <= o.before && 0 <= o.after && 0 <= o.above && 0 <= o.below
    ensures offset >= 0 ==> 0 <= t.col - o.before && t.col + t.width + o.after <= nColumns
    ensures offset >= 0 ==> 0 <= t.row - o.above && t.row + t.height + o.below <= nLines
    ensures o.before <= offset && o.after <= offset && o.above <= offset && o.below <= offset
    ensures o.before < offset ==> t.col - o.before == 0
    ensures o.after < offset ==> t.col + t.width + o.after == nColumns
    ensures o.above < offset ==> t.row - o.above == 0
    ensures o.below < offset ==> t.row + t.height + o.below == nLines
  {
    Offsets(Min(offset, t.col), Min(offset, nColumns - t.col - t.width),
            Min(offset, t.row), Min(offset, nLines - t.row - t.height))
  }

  /** The decrement loops of `_generate_block_array`: each offset starts at
      `offset` and is lowered by one until the read stays in the grid. */
  method ClampOffsets(t: Tile, offset: int, nColumns: int, nLines: int) returns (o: Offsets)
    requires 0 <= t.col && 0 <= t.row && t.col + t.width <= nColumns && t.row + t.height <= nLines
    ensures o == ClampedOffsets(t, offset, nColumns, nLines)
  {
    var xBefore, xAfter, yBefore, yAfter := offset, offset, offset, offset;
    if offset != 0 {
      while t.col - xBefore < 0
        invariant xBefore == Min(offset, xBefore) && xBefore >= Min(offset, t.col)
        decreases xBefore - t.col
      {
        xBefore := xBefore - 1;
      }
      while t.row - yBefore < 0
        invariant yBefore == Min(offset, yBefore) && yBefore >= Min(offset, t.row)
        decreases yBefore - t.row
      {
        yBefore := yBefore - 1;
      }
      while t.col + t.width + xAfter >= nColumns + 1
        invariant xAfter <= offset && xAfter >= Min(offset, nColumns - t.col - t.width)
        decreases t.col + t.width + xAfter - nColumns
      {
        xAfter := xAfter - 1;
      }
      while t.row + t.height + yAfter >= nLines + 1
        invariant yAfter <= offset && yAfter >= Min(offset, nLines - t.row - t.height)
        decreases t.row + t.height + yAfter - nLines
      {
        yAfter := yAfter - 1;
      }
    }
    o := Offsets(xBefore, xAfter, yBefore, yAfter);
  }

  /** The window read for tile `t` with offset `k`. */
  function ExpandedTile(t: Tile, o: Offsets): Tile {
    Tile(t.col - o.before, t.row - o.above, t.width + o.before + o.after, t.height + o.above + o.below)
  }

  /** With a non-negative offset the read window lies in the grid, contains
      the tile, and is no wider than `k` on any side. */
  lemma WindowInBounds(t: Tile, offset: nat, nColumns: nat, nLines: nat)
    requires 0 <= t.col && 0 <= t.row && t.col + t.width <= nColumns && t.row + t.height <= nLines
    ensures var w := ExpandedTile(t, ClampedOffsets(t, offset, nColumns, nLines));
      && 0 <= w.col <= t.col && 0 <= w.row <= t.row
      && t.col + t.width <= w.col + w.width <= nColumns
      && t.row + t.height <= w.row + w.height <= nLines
      && w.width <= t.width + 2 * offset && w.height <= t.height + 2 * offset
  {
  }

  // ---------------------------------------------------------------------
  // _iter_for_spatial_function

  /** One step of `_iter_for_spatial_function`: position in the tile (column,
      line) and the pixel of the grid it reads. */
  datatype Step = Step(idCol: nat, idRow: nat, column: int, row: int)

  /** The per-pixel steps over a tile; the outer loop runs over columns and
      the inner one over lines. */
  function SpatialSteps(t: Tile): seq<Step>
    requires t.width >= 0 && t.height >= 0
  {
    Nest(Range(0, t.width, 1), Range(0, t.height, 1), StepMaker(t))
  }

  /** The loop body of `_iter_for_spatial_function` for tile `t`. */
  function StepMaker(t: Tile): (nat, nat) -> Step {
    (i: nat, j: nat) => Step(i, j, t.col + i, t.row + j)
  }

  /** Step `k` visits column `k / height` and line `k % height` of the tile,
      and reads that pixel of the grid. */
  lemma SpatialStepAt(t: Tile, k: nat)
    requires t.width >= 0 && t.height > 0 && k < t.width * t.height
    ensures var s := SpatialSteps(t)[k];
      && s.idCol == k / t.height && s.idRow == k % t.height
      && s.column == t.col + s.idCol && s.row == t.row + s.idRow
      && Contains(t, s.row, s.column)
  {
    var cols, rows := Range(0, t.width, 1), Range(0, t.height, 1);
    CeilDivOne(t.width);
    CeilDivOne(t.height);
    IndexOfPair(k, t.width, t.height);
    var i, j := k / t.height, k % t.height;
    NestAt(cols, rows, StepMaker(t), k);
    RangeAt(0, t.width, 1, i);
    RangeAt(0, t.height, 1, j);
  }

  /** Every pixel of the tile, at column `i` and line `j` of it, is visited,
      by step `i * height + j`. */
  lemma SpatialStepOfPixel(t: Tile, i: nat, j: nat)
    requires 0 <= i < t.width && 0 <= j < t.height
    ensures i * t.height + j < |SpatialSteps(t)|
    ensures SpatialSteps(t)[i * t.height + j] == Step(i, j, t.col + i, t.row + j)
  {
    PairBound(i, j, t.width, t.height);
    PairOfIndex(i, j, t.height);
    SpatialStepAt(t, i * t.height + j);
  }
}
