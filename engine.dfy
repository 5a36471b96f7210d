/** The `RasterMath` engine: the state it keeps between calls (block size,
    creation options, and the parallel lists of registered functions and
    their outputs) and the methods that change it. */
module Engine {
  import opened Arith
  import opened Outcomes
  import opened NdArrays
  import opened Tiling
  import opened RowMask
  import opened Blocks
  import opened TileSpec
  import opened RasterOptions
  import opened Registration

  /** An output GeoTIFF in memory: its size, data type and creation
      options, one band of values per output band (indexed by band, line and
      column), and the nodata value set on its first band. */
  class OutputRaster {
    const nColumns: nat
    const nLines: nat
    const nBands: nat
    const dataType: int
    const options: seq<string>
    const bands: array3<int>
    var nodata: Option<int>

    predicate Valid() {
      bands.Length0 == nBands && bands.Length1 == nLines && bands.Length2 == nColumns
    }

    /** `driver.Create(out_image, n_columns, n_lines, n_bands, dt, options)`:
        a new raster of zeros without nodata. */
    constructor (nColumns: nat, nLines: nat, nBands: nat, dataType: int, options: seq<string>)
      ensures Valid() && fresh(bands)
      ensures this.nColumns == nColumns && this.nLines == nLines && this.nBands == nBands
      ensures this.dataType == dataType && this.options == options && nodata == None
      ensures forall b, y, x :: 0 <= b < nBands && 0 <= y < nLines && 0 <= x < nColumns ==> bands[b, y, x] == 0
    {
      this.nColumns := nColumns;
      this.nLines := nLines;
      this.nBands := nBands;
      this.dataType := dataType;
      this.options := options;
      bands := new int[nBands, nLines, nColumns]((b, y, x) => 0);
      nodata := None;
    }
  }

  class RasterMath {
    const image: Raster
    const mask: Option<seq<seq<int>>>
    const return3d: bool
    /** The machine `_init_raster_parameters` asks about. */
    const env: Env

    var xBlockSize: nat
    var yBlockSize: nat
    var blockSizes: (nat, nat)
    var nBlocks: nat
    var nXBlocks: nat
    var nYBlocks: nat

    var functions: seq<Transform>
    var functionsKwargs: seq<map<string, int>>
    var outputs: seq<OutputRaster>
    var outputNoData: seq<Option<int>>
    var functionIs3d: seq<bool>
    var offsets: seq<nat>

    var options: seq<string>
    var position: nat

    /** The input as the block readers see it. */
    function Src(): Source {
      Source(image, mask, return3d)
    }

    /** The grid and its block size agree with the block counts. */
    predicate GridValid()
      reads this`xBlockSize, this`yBlockSize, this`blockSizes, this`nBlocks, this`nXBlocks, this`nYBlocks
    {
      && SourceValid(Src()) && image.nColumns > 0 && image.nLines > 0
      && xBlockSize > 0 && yBlockSize > 0
      && blockSizes == (xBlockSize, yBlockSize)
      && nBlocks == NBlocks(image.nColumns, image.nLines, xBlockSize, yBlockSize)
    }

    /** The block counts along each axis. */
    predicate CountsValid()
      reads this`xBlockSize, this`yBlockSize, this`nXBlocks, this`nYBlocks
    {
      && xBlockSize > 0 && yBlockSize > 0
      && nXBlocks == CeilDiv(image.nColumns, xBlockSize)
      && nYBlocks == CeilDiv(image.nLines, yBlockSize)
    }

    /** Each output is a raster of its own with the input's size. */
    predicate OutputsValid()
      reads this`outputs
    {
      && (forall i :: 0 <= i < |outputs| ==>
            outputs[i].Valid() && outputs[i].nColumns == image.nColumns && outputs[i].nLines == image.nLines)
      && (forall i, j :: 0 <= i < j < |outputs| ==> outputs[i] != outputs[j] && outputs[i].bands != outputs[j].bands)
    }

    /** The parallel lists have one entry per registered function. */
    predicate InStep()
      reads this`functions, this`functionsKwargs, this`outputs, this`outputNoData, this`functionIs3d, this`offsets
    {
      && |functionsKwargs| == |functions| && |outputs| == |functions| && |outputNoData| == |functions|
      && |functionIs3d| == |functions| && |offsets| == |functions|
    }

    predicate Valid()
      reads this`xBlockSize, this`yBlockSize, this`blockSizes, this`nBlocks, this`nXBlocks, this`nYBlocks
      reads this`functions, this`functionsKwargs, this`outputs, this`outputNoData, this`functionIs3d, this`offsets
    {
      GridValid() && CountsValid() && InStep() && OutputsValid()
    }

    /** What `run` relies on: `Valid` without the per-axis block counts. */
    predicate Ready()
      reads this`xBlockSize, this`yBlockSize, this`blockSizes, this`nBlocks, this`nXBlocks, this`nYBlocks
      reads this`functions, this`functionsKwargs, this`outputs, this`outputNoData, this`functionIs3d, this`offsets
    {
      GridValid() && InStep() && OutputsValid()
    }

    /** Function `idx` with what the lists keep for it. */
    function EntryAt(idx: nat): (e: Entry)
      reads this`functions, this`functionsKwargs, this`outputs, this`outputNoData, this`functionIs3d, this`offsets
      requires idx < |functions| && |functionsKwargs| == |functions| && |outputs| == |functions|
      requires |outputNoData| == |functions| && |functionIs3d| == |functions| && |offsets| == |functions|
      ensures e.bands == outputs[idx].nBands && e.nodata == outputNoData[idx] && e.is3d == functionIs3d[idx]
      ensures e.offset == offsets[idx] && e.kwargs == functionsKwargs[idx] && e.fun == functions[idx]
    {
      Entry(functions[idx], functionsKwargs[idx], outputs[idx].nBands, outputNoData[idx], functionIs3d[idx], offsets[idx])
    }

    /** Tile `k` of `_iter_block`. */
    function TileAt(k: nat): (t: Tile)
      reads this`xBlockSize, this`yBlockSize, this`blockSizes, this`nBlocks, this`nXBlocks, this`nYBlocks
      requires GridValid() && k < nBlocks
      ensures TileOf(Src(), t) && t == IterBlock(image.nColumns, image.nLines, xBlockSize, yBlockSize)[k]
    {
      TileInside(image.nColumns, image.nLines, xBlockSize, yBlockSize, k);
      IterBlock(image.nColumns, image.nLines, xBlockSize, yBlockSize)[k]
    }

    // -------------------------------------------------------------------
    // __init__ and custom_block_size

    /** `RasterMath(in_image, in_image_mask, return_3d, block_size)`: the
        block size is the given one, or the input's own block size when
        `block_size` is False; nothing is registered yet. */
    constructor (image: Raster, mask: Option<seq<seq<int>>>, return3d: bool, env: Env,
                 blockSize: Option<(nat, nat)>, inputBlockSizes: (nat, nat))
      requires SourceValid(Source(image, mask, return3d)) && image.nColumns > 0 && image.nLines > 0
      requires blockSize.Some? ==> blockSize.value.0 > 0 && blockSize.value.1 > 0
      requires blockSize.None? ==> inputBlockSizes.0 > 0 && inputBlockSizes.1 > 0
      ensures Valid()
      ensures this.image == image && this.mask == mask && this.return3d == return3d && this.env == env
      ensures (xBlockSize, yBlockSize) == blockSize.GetOr(inputBlockSizes)
      ensures functions == [] && outputs == [] && outputNoData == [] && functionIs3d == []
      ensures offsets == [] && functionsKwargs == [] && options == [] && position == 0
    {
      this.image := image;
      this.mask := mask;
      this.return3d := return3d;
      this.env := env;
      var sizes := blockSize.GetOr(inputBlockSizes);
      var x, y := sizes.0, sizes.1;
      xBlockSize, yBlockSize := x, y;
      blockSizes := (x, y);
      nBlocks := NBlocks(image.nColumns, image.nLines, x, y);
      nXBlocks := CeilDiv(image.nColumns, x);
      nYBlocks := CeilDiv(image.nLines, y);
      functions, functionsKwargs, outputs, outputNoData, functionIs3d, offsets := [], [], [], [], [], [];
      options := [];
      position := 0;
    }

    /** `custom_block_size(x_block_size, y_block_size)`: each axis resolved
        against the previous sizes, then the block counts recomputed. */
    method CustomBlockSize(x: BlockSizeArg, y: BlockSizeArg)
      requires Valid() && SupportedArg(x) && SupportedArg(y)
      modifies this`xBlockSize, this`yBlockSize, this`blockSizes, this`nBlocks, this`nXBlocks, this`nYBlocks
      ensures Valid()
      ensures yBlockSize == ResolveBlockSize(y, image.nLines, old(blockSizes.1))
      ensures xBlockSize == ResolveBlockSize(x, image.nColumns, old(blockSizes.0))
      ensures nBlocks == nYBlocks * nXBlocks
      ensures nYBlocks == |Range(0, image.nLines, yBlockSize)| && nXBlocks == |Range(0, image.nColumns, xBlockSize)|
    {
      var ys := ResolveBlockSize(y, image.nLines, blockSizes.1);
      var xs := ResolveBlockSize(x, image.nColumns, blockSizes.0);
      var ny, nx := |Range(0, image.nLines, ys)|, |Range(0, image.nColumns, xs)|;
      yBlockSize, xBlockSize := ys, xs;
      nBlocks := NBlocks(image.nColumns, image.nLines, xs, ys);
      blockSizes := (xs, ys);
      nYBlocks, nXBlocks := ny, nx;
    }

    // -------------------------------------------------------------------
    // Raster creation options

    /** `_init_raster_parameters(compress)`. */
    method InitRasterParameters(compress: CompressArg)
      modifies this`options
      ensures options == InitOptions(compress, env)
    {
      options := InitOptions(compress, env);
    }

    /** `get_raster_parameters()`: the options, set to the compressed
        defaults first when there are none. */
    method GetRasterParameters() returns (o: seq<string>)
      modifies this`options
      ensures old(options) == [] ==> options == InitOptions(CompressFlag(true), env)
      ensures old(options) != [] ==> options == old(options)
      ensures o == options && o != []
    {
      if options == [] {
        InitRasterParameters(CompressFlag(true));
      }
      o := options;
    }

    /** `custom_raster_parameters(parameters_list)`. */
    method CustomRasterParameters(parameters: seq<string>)
      modifies this`options
      ensures options == parameters
    {
      options := parameters;
    }

    /** `_managed_raster_parameters()`: drop the block-size and tiling
        entries, whatever their case, then append the current ones. */
    method ManagedRasterParameters()
      modifies this`options
      ensures options == ManagedOptions(old(options), xBlockSize, yBlockSize)
    {
      var o := options;
      var kept := [];
      for i := 0 to |o|
        invariant kept == Unmanaged(o[..i])
        invariant unchanged(this)
      {
        UnmanagedSnoc(o[..i], o[i]);
        assert o[..i + 1] == o[..i] + [o[i]];
        if !IsManaged(o[i]) {
          kept := kept + [o[i]];
        }
      }
      assert o[..|o|] == o;
      var x, y := xBlockSize, yBlockSize;
      options := kept;
      options := options + ["BLOCKYSIZE=" + NatToString(y), "BLOCKXSIZE=" + NatToString(x)];
      if y == x {
        if y in TileSizes {
          options := options + ["TILED=YES"];
        }
      }
    }

    // -------------------------------------------------------------------
    // Registration

    /** `_add_output(out_image, out_n_bands, out_np_dt)`: manage the options,
        then create the output with them. */
    method AddOutput(nBands: nat, dataType: int)
      requires OutputsValid()
      modifies this`options, this`outputs
      ensures OutputsValid()
      ensures options == ManagedOptions(old(options), xBlockSize, yBlockSize)
      ensures |outputs| == |old(outputs)| + 1 && outputs[..|old(outputs)|] == old(outputs)
      ensures var o := outputs[|old(outputs)|];
        && fresh(o) && fresh(o.bands) && o.nBands == nBands && o.dataType == dataType && o.options == options
        && o.nodata == None
        && forall b, y, x :: 0 <= b < nBands && 0 <= y < image.nLines && 0 <= x < image.nColumns ==> o.bands[b, y, x] == 0
    {
      ManagedRasterParameters();
      var o := new OutputRaster(image.nColumns, image.nLines, nBands, dataType, options);
      outputs := outputs + [o];
    }

    /** `_check_add_function` on the probe block (the block
        `get_random_block` settles on, which is never fully masked): the
        options are reset to the defaults for `compress` whatever they were,
        and on success the nodata value and the 3-D flag are appended. When
        the dtype has no minimum nothing is appended. */
    method CheckAddFunction(fun: Transform, kwargs: map<string, int>, outNpDt: Option<string>,
                            outNodata: NodataArg, compress: CompressArg, spatial: bool, probe: FunInput)
      returns (r: Result<Registered>)
      requires ProbeOf(probe, return3d || spatial)
      modifies this`options, this`outputNoData, this`functionIs3d
      ensures r == Registration.CheckAddFunction(Src(), probe, fun, kwargs, outNpDt, outNodata, spatial)
      ensures options == InitOptions(compress, env)
      ensures r.Ok? ==> outputNoData == old(outputNoData) + [r.value.nodata] && functionIs3d == old(functionIs3d) + [spatial]
      ensures r.Err? ==> outputNoData == old(outputNoData) && functionIs3d == old(functionIs3d)
    {
      if options == [] {
        InitRasterParameters(compress);
      } else {
        var params := GetRasterParameters();
        params := DropFirstCompress(params);
        CustomRasterParameters(params);
        InitRasterParameters(compress);
      }
      r := Registration.CheckAddFunction(Src(), probe, fun, kwargs, outNpDt, outNodata, spatial);
      if r.Ok? {
        outputNoData := outputNoData + [r.value.nodata];
        functionIs3d := functionIs3d + [spatial];
      }
    }

    /** `add_function`: register a pixel-wise function, with a new output of
        the band count and data type the probe shows, created with the default
        options for `compress` and the current block size. On failure only the
        options have changed. */
    method AddFunction(fun: Transform, kwargs: map<string, int>, outNpDt: Option<string>,
                       outNodata: NodataArg, compress: CompressArg, probe: FunInput)
      returns (r: Result<Registered>)
      requires Valid() && ProbeOf(probe, return3d || false)
      modifies this`options, this`outputs, this`outputNoData, this`functionIs3d, this`offsets, this`functions, this`functionsKwargs
      ensures Valid()
      ensures r == Registration.CheckAddFunction(Src(), probe, fun, kwargs, outNpDt, outNodata, false)
      ensures r.Err? ==>
        && options == InitOptions(compress, env)
        && functions == old(functions) && functionsKwargs == old(functionsKwargs) && outputs == old(outputs)
        && outputNoData == old(outputNoData) && functionIs3d == old(functionIs3d) && offsets == old(offsets)
      ensures r.Ok? ==>
        && options == ManagedOptions(InitOptions(compress, env), xBlockSize, yBlockSize)
        && functions == old(functions) + [fun] && functionsKwargs == old(functionsKwargs) + [kwargs]
        && outputNoData == old(outputNoData) + [r.value.nodata] && functionIs3d == old(functionIs3d) + [false]
        && offsets == old(offsets) + [0]
        && |outputs| == |old(outputs)| + 1
        && outputs[..|old(outputs)|] == old(outputs) && fresh(outputs[|old(outputs)|])
        && outputs[|old(outputs)|].nBands == r.value.bands && outputs[|old(outputs)|].dataType == r.value.dataType
        && outputs[|old(outputs)|].options == options
    {
      r := CheckAddFunction(fun, kwargs, outNpDt, outNodata, compress, false, probe);
      if r.Ok? {
        AppendFunction(fun, kwargs, 0, r.value.bands, r.value.dataType);
      }
    }

    /** `add_spatial_function`: the same for a function of the neighbourhood
        of `offset` pixels around each pixel. */
    method AddSpatialFunction(fun: Transform, kwargs: map<string, int>, outNpDt: Option<string>,
                              outNodata: NodataArg, compress: CompressArg, offset: nat, probe: FunInput)
      returns (r: Result<Registered>)
      requires Valid() && ProbeOf(probe, return3d || true)
      modifies this`options, this`outputs, this`outputNoData, this`functionIs3d, this`offsets, this`functions, this`functionsKwargs
      ensures Valid()
      ensures r == Registration.CheckAddFunction(Src(), probe, fun, kwargs, outNpDt, outNodata, true)
      ensures r.Err? ==>
        && options == InitOptions(compress, env)
        && functions == old(functions) && functionsKwargs == old(functionsKwargs) && outputs == old(outputs)
        && outputNoData == old(outputNoData) && functionIs3d == old(functionIs3d) && offsets == old(offsets)
      ensures r.Ok? ==>
        && options == ManagedOptions(InitOptions(compress, env), xBlockSize, yBlockSize)
        && functions == old(functions) + [fun] && functionsKwargs == old(functionsKwargs) + [kwargs]
        && outputNoData == old(outputNoData) + [r.value.nodata] && functionIs3d == old(functionIs3d) + [true]
        && offsets == old(offsets) + [offset]
        && |outputs| == |old(outputs)| + 1
        && outputs[..|old(outputs)|] == old(outputs) && fresh(outputs[|old(outputs)|])
        && outputs[|old(outputs)|].nBands == r.value.bands && outputs[|old(outputs)|].dataType == r.value.dataType
        && outputs[|old(outputs)|].options == options
    {
      r := CheckAddFunction(fun, kwargs, outNpDt, outNodata, compress, true, probe);
      if r.Ok? {
        AppendFunction(fun, kwargs, offset, r.value.bands, r.value.dataType);
      }
    }

    /** The end of `add_function` and `add_spatial_function`: a new output
        is created, and the function, its keyword arguments and its offset
        join the lists. */
    method AppendFunction(fun: Transform, kwargs: map<string, int>, offset: nat, nBands: nat, dataType: int)
      requires |functionsKwargs| == |functions| && |offsets| == |functions| && |outputs| == |functions|
      requires |outputNoData| == |functions| + 1 && |functionIs3d| == |functions| + 1
      requires GridValid() && CountsValid() && OutputsValid()
      modifies this`options, this`outputs, this`offsets, this`functions, this`functionsKwargs
      ensures Valid()
      ensures options == ManagedOptions(old(options), xBlockSize, yBlockSize)
      ensures functions == old(functions) + [fun] && functionsKwargs == old(functionsKwargs) + [kwargs]
      ensures offsets == old(offsets) + [offset]
      ensures |outputs| == |old(outputs)| + 1 && outputs[..|old(outputs)|] == old(outputs)
      ensures var o := outputs[|old(outputs)|];
        fresh(o) && o.nBands == nBands && o.dataType == dataType && o.options == options
    {
      AddOutput(nBands, dataType);
      offsets := offsets + [offset];
      functions := functions + [fun];
      functionsKwargs := functionsKwargs + [kwargs];
    }

    // -------------------------------------------------------------------
    // _return_block

    /** `_return_block(idx, ...)` on tile `t`. */
    method ReturnBlock(idx: nat, t: Tile) returns (r: Result<Array>)
      requires GridValid() && InStep() && idx < |functions| && TileOf(Src(), t)
      ensures r == BlockResult(Src(), EntryAt(idx), t)
    {
      var e := EntryAt(idx);
      if functionIs3d[idx] {
        var rows := SpatialFill(Src(), e, t);
        if rows.Err? {
          return Err(rows.error);
        }
        r := Ok(GridCube(rows.value, t.height, t.width, e.bands));
      } else {
        ReadTileOk(Src(), t, false);
        var x := BlockInput(Src(), t, 0, false).value;
        r := Ok(ReshapeNdim(functions[idx](x, functionsKwargs[idx]), return3d));
      }
    }

    // -------------------------------------------------------------------
    // run

    /** The tile of `_iter_block` holding line `y`, column `x`: there is
        exactly one. */
    function TileIndexAt(y: nat, x: nat): (k: nat)
      reads this`xBlockSize, this`yBlockSize, this`blockSizes, this`nBlocks, this`nXBlocks, this`nYBlocks
      requires GridValid() && y < image.nLines && x < image.nColumns
      ensures k < nBlocks && Contains(TileAt(k), y, x)
      ensures forall kk :: 0 <= kk < nBlocks && Contains(TileAt(kk), y, x) ==> kk == k
    {
      TileIndexExact(image.nColumns, image.nLines, xBlockSize, yBlockSize, y, x);
      TileIndexOf(image.nColumns, xBlockSize, yBlockSize, y, x)
    }

    /** What `run` writes at line `y`, column `x` of output `idx`: the
        pixel's row of its tile's result, or the error that tile raises. */
    function PixelOf(idx: nat, y: nat, x: nat): (r: Result<seq<int>>)
      reads this`xBlockSize, this`yBlockSize, this`blockSizes, this`nBlocks, this`nXBlocks, this`nYBlocks
      reads this`functions, this`functionsKwargs, this`outputs, this`outputNoData, this`functionIs3d, this`offsets
      requires GridValid() && InStep() && idx < |functions| && y < image.nLines && x < image.nColumns
      ensures r.Ok? ==> |r.value| == outputs[idx].nBands
    {
      var t := TileAt(TileIndexAt(y, x));
      match TileResult(Src(), EntryAt(idx), t)
      case Err(err) => Err(err)
      case Ok(rows) => Ok(PixelRow(rows, t, y - t.row, x - t.col, outputs[idx].nBands))
    }

    /** The rows `run` writes for function `idx` on tile `k`, or the error
        it raises there. */
    function Outcome(k: nat, idx: nat): (r: Result<seq<seq<int>>>)
      reads this`xBlockSize, this`yBlockSize, this`blockSizes, this`nBlocks, this`nXBlocks, this`nYBlocks
      reads this`functions, this`functionsKwargs, this`outputs, this`outputNoData, this`functionIs3d, this`offsets
      requires GridValid() && InStep() && k < nBlocks && idx < |functions|
      ensures r.Ok? ==> |r.value| == TileAt(k).height * TileAt(k).width && AllRowsHave(r.value, outputs[idx].nBands)
    {
      TileResult(Src(), EntryAt(idx), TileAt(k))
    }

    /** `table` holds the outcome of every registered function on every tile:
        a row per tile, a column per function. */
    predicate IsOutcomeTable(table: OutcomeTable)
      reads this`xBlockSize, this`yBlockSize, this`blockSizes, this`nBlocks, this`nXBlocks, this`nYBlocks
      reads this`functions, this`functionsKwargs, this`outputs, this`outputNoData, this`functionIs3d, this`offsets
      requires GridValid() && InStep()
    {
      && |table| == nBlocks && Shaped(table, |functions|)
      && forall k, i {:trigger Outcome(k, i)} :: 0 <= k < nBlocks && 0 <= i < |functions| ==> table[k][i] == Outcome(k, i)
    }

    /** The registered functions with what the lists keep for each. */
    function Entries(): (es: seq<Entry>)
      reads this`functions, this`functionsKwargs, this`outputs, this`outputNoData, this`functionIs3d, this`offsets
      requires InStep()
      ensures |es| == |functions| && forall i :: 0 <= i < |functions| ==> es[i] == EntryAt(i)
    {
      var fs, ks, os, ns, ds, offs := functions, functionsKwargs, outputs, outputNoData, functionIs3d, offsets;
      seq(|fs|, i requires 0 <= i < |fs| && |ks| == |os| == |ns| == |ds| == |offs| == |fs| =>
        Entry(fs[i], ks[i], os[i].nBands, ns[i], ds[i], offs[i]))
    }

    /** The outcome table of the current registrations and block size: there
        is exactly one, since it is the table of `Outcome`. */
    ghost function RunOutcomes(): (table: OutcomeTable)
      reads this`xBlockSize, this`yBlockSize, this`blockSizes, this`nBlocks, this`nXBlocks, this`nYBlocks
      reads this`functions, this`functionsKwargs, this`outputs, this`outputNoData, this`functionIs3d, this`offsets
      requires GridValid() && InStep()
      ensures IsOutcomeTable(table)
    {
      var src, es := Src(), Entries();
      var tiles := IterBlock(image.nColumns, image.nLines, xBlockSize, yBlockSize);
      assert forall k :: 0 <= k < |tiles| ==> tiles[k] == TileAt(k);
      var full := seq(|tiles|, k requires 0 <= k < |tiles| && TileOf(src, tiles[k]) =>
        seq(|es|, i requires 0 <= i < |es| => TileResult(src, es[i], tiles[k])));
      assert forall k, i :: 0 <= k < nBlocks && 0 <= i < |functions| ==> full[k][i] == Outcome(k, i);
      assert IsOutcomeTable(full);
      var table :| IsOutcomeTable(table);
      table
    }

    /** Output `i` holds column `i` of `table` on every tile before tile
        `k`. */
    predicate OutputWritten(table: OutcomeTable, i: nat, k: nat)
      reads this`xBlockSize, this`yBlockSize, this`blockSizes, this`nBlocks, this`nXBlocks, this`nYBlocks
      reads this`functions, this`functionsKwargs, this`outputs, this`outputNoData, this`functionIs3d, this`offsets
      reads if i < |outputs| then {outputs[i].bands} else {}
      requires Ready() && i < |functions| && k <= nBlocks && k <= |table| && Shaped(table, |functions|)
      decreases k
    {
      k == 0 || (OutputWritten(table, i, k - 1) && TileHolds(outputs[i].bands, TileAt(k - 1), table[k - 1][i]))
    }

    /** What the outputs hold when the loop of `run` stops at `(k, idx)`:
        the functions before `idx` have written tile `k` as well, the others
        only the tiles before it. */
    predicate WrittenUntil(table: OutcomeTable, k: nat, idx: nat)
      reads this`xBlockSize, this`yBlockSize, this`blockSizes, this`nBlocks, this`nXBlocks, this`nYBlocks
      reads this`functions, this`functionsKwargs, this`outputs, this`outputNoData, this`functionIs3d, this`offsets
      reads set i | 0 <= i < |outputs| :: outputs[i].bands
      requires Ready() && IsOutcomeTable(table) && k < nBlocks && idx <= |functions|
    {
      && AllWritten(table, 0, idx, k + 1)
      && AllWritten(table, idx, |functions|, k)
    }

    /** Outputs `lo` to `hi - 1` each hold their column of `table` before tile `m`. */
    predicate AllWritten(table: OutcomeTable, lo: nat, hi: nat, m: nat)
      reads this`xBlockSize, this`yBlockSize, this`blockSizes, this`nBlocks, this`nXBlocks, this`nYBlocks
      reads this`functions, this`functionsKwargs, this`outputs, this`outputNoData, this`functionIs3d, this`offsets
      reads set i | 0 <= i < |outputs| :: outputs[i].bands
      requires Ready() && IsOutcomeTable(table) && m <= nBlocks && hi <= |functions|
    {
      forall i :: lo <= i < hi ==> OutputWritten(table, i, m)
    }

    /** Output `i` holds column `i` of `table` before tile `k` exactly when
        each of those tiles holds its entry. */
    lemma {:induction false} WrittenIff(table: OutcomeTable, i: nat, k: nat)
      requires Ready() && i < |functions| && k <= nBlocks && k <= |table| && Shaped(table, |functions|)
      ensures OutputWritten(table, i, k) <==>
        forall kk :: 0 <= kk < k ==> TileHolds(outputs[i].bands, TileAt(kk), table[kk][i])
      decreases k
    {
      if k > 0 {
        WrittenIff(table, i, k - 1);
      }
    }

    /** Once every tile is written, the pixel at line `y`, column `x` of
        output `i` holds its row of its tile's result. */
    lemma PixelWritten(i: nat, y: nat, x: nat)
      requires Ready() && i < |functions| && OutputWritten(RunOutcomes(), i, nBlocks)
      requires y < image.nLines && x < image.nColumns
      ensures PixelOf(i, y, x).Ok?
      ensures forall b :: 0 <= b < outputs[i].nBands ==> outputs[i].bands[b, y, x] == PixelOf(i, y, x).value[b]
    {
      var k := TileIndexAt(y, x);
      var table := RunOutcomes();
      WrittenIff(table, i, nBlocks);
      assert table[k][i] == Outcome(k, i);
      var t, rows := TileAt(k), table[k][i].value;
      assert PixelOf(i, y, x) == Ok(PixelRow(rows, t, y - t.row, x - t.col, outputs[i].nBands));
      assert TileWritten(outputs[i].bands, t, rows);
      assert y == t.row + (y - t.row) && x == t.col + (x - t.col);
    }

    /** Once every tile is written, every pixel of output `i` holds its row
        of its tile's result. */
    lemma EveryPixelWritten(i: nat)
      requires Ready() && i < |functions| && OutputWritten(RunOutcomes(), i, nBlocks)
      ensures forall b, y, x :: 0 <= b < outputs[i].nBands && 0 <= y < image.nLines && 0 <= x < image.nColumns ==>
        PixelOf(i, y, x).Ok? && outputs[i].bands[b, y, x] == PixelOf(i, y, x).value[b]
    {
      forall y, x | 0 <= y < image.nLines && 0 <= x < image.nColumns
        ensures PixelOf(i, y, x).Ok?
        ensures forall b :: 0 <= b < outputs[i].nBands ==> outputs[i].bands[b, y, x] == PixelOf(i, y, x).value[b]
      {
        PixelWritten(i, y, x);
      }
    }

    /** The body of `run` for function `idx` on tile `t`: a fully masked
        tile is filled with nodata (or stops the run when there is none);
        otherwise `_return_block`, the band-count check and the nodata
        reinsertion for a partly masked tile. */
    method ProcessTile(idx: nat, t: Tile) returns (r: Result<seq<seq<int>>>)
      requires GridValid() && InStep() && idx < |functions| && TileOf(Src(), t)
      ensures r == TileResult(Src(), EntryAt(idx), t)
    {
      var e := EntryAt(idx);
      var flags := TileFlags(Src(), t);
      if AllMasked(flags) {
        if e.nodata.None? {
          return Err(MissingNoData);
        }
        return Ok(seq(t.height * t.width, _ => FillRow(e)));
      }
      var res := ReturnBlock(idx, t);
      if res.Err? {
        return Err(res.error);
      }
      var a := res.value;
      if Last(a.shape) > e.bands {
        return Err(BandOverflow);
      }
      if NoneMasked(flags) {
        r := Unmasked(a, t.height, t.width, e.bands, return3d);
      } else if return3d || e.is3d {
        r := Partial3D(flags, FillRow(e), a, t.height, t.width);
      } else {
        r := Partial2D(flags, FillRow(e), a);
      }
    }

    /** A successful entry of an outcome table has one row per pixel of its
        tile, each with the output's band count. */
    lemma OutcomeShape(table: OutcomeTable, k: nat, idx: nat)
      requires GridValid() && InStep() && IsOutcomeTable(table) && k < nBlocks && idx < |functions|
      ensures table[k][idx].Ok? ==>
        |table[k][idx].value| == TileAt(k).height * TileAt(k).width
        && AllRowsHave(table[k][idx].value, outputs[idx].nBands)
    {
      assert table[k][idx] == Outcome(k, idx);
    }

    /** The tiles before tile `k`, each with its entry of column `idx` of
        `table`. */
    ghost function TilesBefore(table: OutcomeTable, idx: nat, k: nat): (done: seq<(Tile, Result<seq<seq<int>>>)>)
      reads this`xBlockSize, this`yBlockSize, this`blockSizes, this`nBlocks, this`nXBlocks, this`nYBlocks
      requires GridValid() && k <= nBlocks && k <= |table| && forall j :: 0 <= j < k ==> idx < |table[j]|
      ensures |done| == k && forall j :: 0 <= j < k ==> done[j] == (TileAt(j), table[j][idx])
      decreases k
    {
      if k == 0 then [] else TilesBefore(table, idx, k - 1) + [(TileAt(k - 1), table[k - 1][idx])]
    }

    /** The band loop of `run` for output `idx` on tile `k`: the tile
        receives its rows and the tiles before it keep theirs. */
    method WriteResult(ghost table: OutcomeTable, idx: nat, k: nat, rows: seq<seq<int>>)
      requires Ready() && IsOutcomeTable(table) && idx < |functions| && k < nBlocks
      requires table[k][idx] == Ok(rows)
      requires OutputWritten(table, idx, k)
      modifies outputs[idx].bands
      ensures OutputWritten(table, idx, k + 1)
      ensures forall i: nat, m: nat :: i < |functions| && i != idx && m <= nBlocks ==>
        (OutputWritten(table, i, m) <==> old(OutputWritten(table, i, m)))
    {
      WrittenIff(table, idx, k);
      OutcomeShape(table, k, idx);
      var out, t := outputs[idx].bands, TileAt(k);
      ghost var done := TilesBefore(table, idx, k);
      forall j | 0 <= j < k
        ensures TileHolds(out, done[j].0, done[j].1) && Disjoint(done[j].0, t)
      {
        TilesDisjoint(j, k);
      }
      WriteTileKeeping(out, t, rows, done);
      WrittenIff(table, idx, k + 1);
    }

    /** `ProcessTile` on tile `k`: entry `(k, idx)` of the outcome table. */
    method ProcessEntry(ghost table: OutcomeTable, k: nat, idx: nat) returns (r: Result<seq<seq<int>>>)
      requires GridValid() && InStep() && IsOutcomeTable(table) && idx < |functions| && k < nBlocks
      ensures r == table[k][idx]
    {
      r := ProcessTile(idx, TileAt(k));
      assert table[k][idx] == Outcome(k, idx);
    }

    /** One pass of the inner loop of `run`: function `idx` on tile `k`,
        its rows written to its output when it succeeds. */
    method RunStep(ghost table: OutcomeTable, k: nat, idx: nat) returns (r: Result<()>)
      requires Ready()
      requires IsOutcomeTable(table)
      requires idx < |functions| && k < nBlocks
      requires OutputWritten(table, idx, k)
      modifies outputs[idx].bands
      ensures r.Ok? <==> table[k][idx].Ok?
      ensures r.Err? ==> table[k][idx] == Err(r.error)
      ensures r.Ok? ==> OutputWritten(table, idx, k + 1)
      ensures r.Err? ==> unchanged(outputs[idx].bands)
      ensures forall i: nat, m: nat :: i < |functions| && i != idx && m <= nBlocks ==>
        (OutputWritten(table, i, m) <==> old(OutputWritten(table, i, m)))
    {
      var rows := ProcessEntry(table, k, idx);
      if rows.Err? {
        return Err(rows.error);
      }
      WriteResult(table, idx, k, rows.value);
      r := Ok(());
    }

    /** Two different tiles share no pixel. */
    lemma TilesDisjoint(k1: nat, k2: nat)
      requires GridValid() && k1 < nBlocks && k2 < nBlocks && k1 != k2
      ensures forall y, x :: Contains(TileAt(k1), y, x) ==> !Contains(TileAt(k2), y, x)
    {
      forall y, x | Contains(TileAt(k1), y, x) && Contains(TileAt(k2), y, x)
        ensures false
      {
        TileOfPixelUnique(image.nColumns, image.nLines, xBlockSize, yBlockSize, y, x, k1);
        TileOfPixelUnique(image.nColumns, image.nLines, xBlockSize, yBlockSize, y, x, k2);
      }
    }

    /** The closing loop of `run`: the nodata value of every function that
        has one is set on its output. */
    method SetNoData()
      requires Valid()
      modifies set i | 0 <= i < |outputs| :: outputs[i]
      ensures Valid() && unchanged(this)
      ensures forall i :: 0 <= i < |outputs| ==> unchanged(outputs[i].bands)
      ensures forall i :: 0 <= i < |outputs| ==>
        outputs[i].nodata == if outputNoData[i].Some? then outputNoData[i] else old(outputs[i].nodata)
    {
      for idx := 0 to |functions|
        invariant Valid()
        invariant forall i :: 0 <= i < idx ==>
          outputs[i].nodata == if outputNoData[i].Some? then outputNoData[i] else old(outputs[i].nodata)
        invariant forall i :: idx <= i < |outputs| ==> outputs[i].nodata == old(outputs[i].nodata)
      {
        if outputNoData[idx].Some? {
          outputs[idx].nodata := outputNoData[idx];
        }
      }
    }

    /** One pass of the outer loop of `run`: every registered function on
        tile `k`, in order, until the first that fails (`failed`). */
    method RunTile(ghost table: OutcomeTable, k: nat) returns (r: Result<()>, ghost failed: nat)
      requires Ready() && IsOutcomeTable(table) && k < nBlocks
      requires SucceededUpTo(table, |functions|, k, 0) && AllWritten(table, 0, |functions|, k)
      modifies set i | 0 <= i < |outputs| :: outputs[i].bands
      ensures r.Ok? ==> SucceededUpTo(table, |functions|, k, |functions|)
      ensures r.Ok? ==> AllWritten(table, 0, |functions|, k + 1)
      ensures r.Err? ==> failed < |functions| && SucceededUpTo(table, |functions|, k, failed)
      ensures r.Err? ==> table[k][failed] == Err(r.error) && WrittenUntil(table, k, failed)
    {
      failed := 0;
      var next := k + 1;
      for idx := 0 to |functions|
        invariant SucceededUpTo(table, |functions|, k, idx)
        invariant forall i :: 0 <= i < idx ==> OutputWritten(table, i, next)
        invariant forall i :: idx <= i < |functions| ==> OutputWritten(table, i, k)
      {
        assert OutputWritten(table, idx, k);
        var step := RunStep(table, k, idx);
        if step.Err? {
          failed := idx;
          return Err(step.error), failed;
        }
      }
      r := Ok(());
    }

    /** The main loop of `run()`: every registered function on every tile,
        tile after tile; the first error stops the loop (what was written
        stays written). `table` is the outcome table of the run. */
    method RunTiles(ghost table: OutcomeTable) returns (r: Result<()>)
      requires Ready() && IsOutcomeTable(table)
      modifies this`position, set i | 0 <= i < |outputs| :: outputs[i].bands
      ensures r.Ok? <==> SucceededUpTo(table, |functions|, nBlocks, 0)
      ensures r.Ok? ==> position == old(position) + nBlocks
      ensures r.Ok? ==> forall i :: 0 <= i < |functions| ==> OutputWritten(table, i, nBlocks)
      ensures r.Err? ==> exists k, idx ::
        && 0 <= k < nBlocks && 0 <= idx < |functions| && SucceededUpTo(table, |functions|, k, idx)
        && table[k][idx] == Err(r.error) && position == old(position) + k
        && WrittenUntil(table, k, idx)
    {
      for k := 0 to nBlocks
        invariant position == old(position) + k
        invariant SucceededUpTo(table, |functions|, k, 0)
        invariant forall i :: 0 <= i < |functions| ==> OutputWritten(table, i, k)
      {
        assert AllWritten(table, 0, |functions|, k);
        var step, failed := RunTile(table, k);
        if step.Err? {
          FailureStops(table, |functions|, k, failed);
          return Err(step.error);
        }
        position := position + 1;
      }
      r := Ok(());
    }

    /** `run()`: the main loop, then, when it succeeds, the nodata value of
        every function that has one is set on its output; on success each
        output holds its function's result on every tile. */
    method Run() returns (r: Result<()>)
      requires Valid()
      modifies this`position, set i | 0 <= i < |outputs| :: outputs[i], set i | 0 <= i < |outputs| :: outputs[i].bands
      ensures Valid()
      ensures r.Ok? <==> SucceededUpTo(RunOutcomes(), |functions|, nBlocks, 0)
      ensures r.Ok? ==> position == old(position) + nBlocks
      ensures r.Ok? ==> forall i :: 0 <= i < |functions| ==> OutputWritten(RunOutcomes(), i, nBlocks)
      ensures r.Ok? ==> forall i :: 0 <= i < |outputs| ==>
        outputs[i].nodata == if outputNoData[i].Some? then outputNoData[i] else old(outputs[i].nodata)
      ensures r.Err? ==> exists k, idx ::
        && 0 <= k < nBlocks && 0 <= idx < |functions| && SucceededUpTo(RunOutcomes(), |functions|, k, idx)
        && RunOutcomes()[k][idx] == Err(r.error) && position == old(position) + k
        && WrittenUntil(RunOutcomes(), k, idx)
      ensures r.Err? ==> forall i :: 0 <= i < |outputs| ==> outputs[i].nodata == old(outputs[i].nodata)
    {
      ghost var table := RunOutcomes();
      r := RunTiles(table);
      if r.Ok? {
        SetNoData();
      }
      assert table == RunOutcomes();
    }
  }

  // ---------------------------------------------------------------------
  // The order of the run

  /** What a run computes: for each tile, in `_iter_block` order, the rows
      each registered function gives there, or the error it raises. */
  type OutcomeTable = seq<seq<Result<seq<seq<int>>>>>

  /** A row of `n` outcomes per tile. */
  predicate Shaped(table: OutcomeTable, n: nat) {
    forall k :: 0 <= k < |table| ==> |table[k]| == n
  }

  /** Every function succeeded on every tile before tile `k`, and on tile
      `k` every function before `idx` did: the pairs the loop of `run` has
      finished, in its order (tile by tile, function by function). */
  predicate SucceededUpTo(table: OutcomeTable, n: nat, k: nat, idx: nat)
    requires Shaped(table, n) && k <= |table| && idx <= n && (k == |table| ==> idx == 0)
    decreases k, idx
  {
    if idx > 0 then SucceededUpTo(table, n, k, idx - 1) && table[k][idx - 1].Ok?
    else if k > 0 then SucceededUpTo(table, n, k - 1, n)
    else true
  }

  /** Each pair before `(k, idx)` in the order of the loop succeeded. */
  lemma {:induction false} SucceededBefore(table: OutcomeTable, n: nat, k: nat, idx: nat, kk: nat, i: nat)
    requires Shaped(table, n) && k <= |table| && idx <= n && (k == |table| ==> idx == 0)
    requires SucceededUpTo(table, n, k, idx)
    requires kk < |table| && i < n && (kk < k || (kk == k && i < idx))
    ensures table[kk][i].Ok?
    decreases k, idx
  {
    if idx > 0 {
      if kk != k || i != idx - 1 {
        SucceededBefore(table, n, k, idx - 1, kk, i);
      }
    } else {
      SucceededBefore(table, n, k - 1, n, kk, i);
    }
  }

  /** `SucceededUpTo` holds exactly when no pair before `(k, idx)` failed. */
  lemma {:induction false} SucceededUpToIff(table: OutcomeTable, n: nat, k: nat, idx: nat)
    requires Shaped(table, n) && k <= |table| && idx <= n && (k == |table| ==> idx == 0)
    ensures SucceededUpTo(table, n, k, idx) <==>
      forall kk, i :: 0 <= kk < |table| && 0 <= i < n && (kk < k || (kk == k && i < idx)) ==> table[kk][i].Ok?
    decreases k, idx
  {
    if SucceededUpTo(table, n, k, idx) {
      forall kk, i | 0 <= kk < |table| && 0 <= i < n && (kk < k || (kk == k && i < idx))
        ensures table[kk][i].Ok?
      {
        SucceededBefore(table, n, k, idx, kk, i);
      }
    } else if idx > 0 {
      SucceededUpToIff(table, n, k, idx - 1);
    } else if k > 0 {
      SucceededUpToIff(table, n, k - 1, n);
    }
  }

  /** A failure on tile `k` for function `idx` means the run does not
      succeed. */
  lemma FailureStops(table: OutcomeTable, n: nat, k: nat, idx: nat)
    requires Shaped(table, n) && k < |table| && idx < n && table[k][idx].Err?
    ensures !SucceededUpTo(table, n, |table|, 0)
  {
    if SucceededUpTo(table, n, |table|, 0) {
      SucceededBefore(table, n, |table|, 0, k, idx);
    }
  }

  /** The row of the pixel at line `i`, column `j` of a tile among the
      tile's rows in C order. */
  function PixelRow(rows: seq<seq<int>>, t: Tile, i: nat, j: nat, bands: nat): (row: seq<int>)
    requires t.width >= 0 && t.height >= 0 && |rows| == t.height * t.width && AllRowsHave(rows, bands)
    requires i < t.height && j < t.width
    ensures |row| == bands
  {
    PairBound(i, j, t.height, t.width);
    rows[i * t.width + j]
  }

  /** Tile `t` lies inside the lines and columns of `out`. */
  predicate TileFits(out: array3<int>, t: Tile) {
    && 0 <= t.row && 0 <= t.col && 0 <= t.height && 0 <= t.width
    && t.row + t.height <= out.Length1 && t.col + t.width <= out.Length2
  }

  /** Band `b` of `out` holds, at every pixel of tile `t`, that pixel's
      row's value. */
  predicate BandWritten(out: array3<int>, b: nat, t: Tile, rows: seq<seq<int>>)
    reads out
    requires TileFits(out, t) && b < out.Length0 && |rows| == t.height * t.width && AllRowsHave(rows, out.Length0)
  {
    forall i, j :: 0 <= i < t.height && 0 <= j < t.width ==>
      out[b, t.row + i, t.col + j] == PixelRow(rows, t, i, j, out.Length0)[b]
  }

  /** `curBand.WriteArray(resToWrite, col, line)` for band `b`: band `b` of
      the tile's rows, reshaped to the tile, is copied to the output at the
      tile's position, line by line; nothing else changes. */
  method WriteBand(out: array3<int>, b: nat, t: Tile, rows: seq<seq<int>>)
    requires TileFits(out, t) && b < out.Length0 && |rows| == t.height * t.width && AllRowsHave(rows, out.Length0)
    modifies out
    ensures BandWritten(out, b, t, rows)
    ensures forall c, y, x ::
      (0 <= c < out.Length0 && 0 <= y < out.Length1 && 0 <= x < out.Length2 && (c != b || !Contains(t, y, x))) ==>
      out[c, y, x] == old(out[c, y, x])
  {
    for i := 0 to t.height
      invariant forall i', j :: 0 <= i' < i && 0 <= j < t.width ==>
        out[b, t.row + i', t.col + j] == PixelRow(rows, t, i', j, out.Length0)[b]
      invariant forall c, y, x ::
        (0 <= c < out.Length0 && 0 <= y < out.Length1 && 0 <= x < out.Length2 && (c != b || !Contains(t, y, x))) ==>
        out[c, y, x] == old(out[c, y, x])
    {
      for j := 0 to t.width
        invariant forall i', j' :: 0 <= i' < i && 0 <= j' < t.width ==>
          out[b, t.row + i', t.col + j'] == PixelRow(rows, t, i', j', out.Length0)[b]
        invariant forall j' :: 0 <= j' < j ==> out[b, t.row + i, t.col + j'] == PixelRow(rows, t, i, j', out.Length0)[b]
        invariant forall c, y, x ::
          (0 <= c < out.Length0 && 0 <= y < out.Length1 && 0 <= x < out.Length2 && (c != b || !Contains(t, y, x))) ==>
          out[c, y, x] == old(out[c, y, x])
      {
        out[b, t.row + i, t.col + j] := PixelRow(rows, t, i, j, out.Length0)[b];
      }
    }
  }

  /** Every band of `out` holds, at every pixel of tile `t`, that pixel's
      row's value. */
  predicate TileWritten(out: array3<int>, t: Tile, rows: seq<seq<int>>)
    reads out
    requires TileFits(out, t) && |rows| == t.height * t.width && AllRowsHave(rows, out.Length0)
  {
    forall b, i, j :: 0 <= b < out.Length0 && 0 <= i < t.height && 0 <= j < t.width ==>
      out[b, t.row + i, t.col + j] == PixelRow(rows, t, i, j, out.Length0)[b]
  }

  /** Tile `t` of `out` holds the rows of a successful outcome. */
  predicate TileHolds(out: array3<int>, t: Tile, r: Result<seq<seq<int>>>)
    reads out
  {
    && r.Ok? && TileFits(out, t) && |r.value| == t.height * t.width && AllRowsHave(r.value, out.Length0)
    && TileWritten(out, t, r.value)
  }

  /** The band loop of `run`: every band of the tile's rows is written at
      the tile's position; nothing outside the tile changes. */
  method WriteTile(out: array3<int>, t: Tile, rows: seq<seq<int>>)
    requires TileFits(out, t) && |rows| == t.height * t.width && AllRowsHave(rows, out.Length0)
    modifies out
    ensures TileWritten(out, t, rows)
    ensures forall c, y, x ::
      (0 <= c < out.Length0 && 0 <= y < out.Length1 && 0 <= x < out.Length2 && !Contains(t, y, x)) ==>
      out[c, y, x] == old(out[c, y, x])
  {
    for ind := 0 to out.Length0
      invariant forall b, i, j :: 0 <= b < ind && 0 <= i < t.height && 0 <= j < t.width ==>
        out[b, t.row + i, t.col + j] == PixelRow(rows, t, i, j, out.Length0)[b]
      invariant forall c, y, x ::
        (0 <= c < out.Length0 && 0 <= y < out.Length1 && 0 <= x < out.Length2 && !Contains(t, y, x)) ==>
        out[c, y, x] == old(out[c, y, x])
    {
      WriteBand(out, ind, t, rows);
      assert BandWritten(out, ind, t, rows);
    }
  }

  /** No pixel lies in both tiles. */
  ghost predicate Disjoint(t: Tile, u: Tile) {
    forall y, x :: Contains(t, y, x) ==> !Contains(u, y, x)
  }

  /** `WriteTile`, seen from the tiles written before: each of `done` that
      does not overlap `t` keeps its rows. */
  method WriteTileKeeping(out: array3<int>, t: Tile, rows: seq<seq<int>>,
                          ghost done: seq<(Tile, Result<seq<seq<int>>>)>)
    requires TileFits(out, t) && |rows| == t.height * t.width && AllRowsHave(rows, out.Length0)
    requires forall j :: 0 <= j < |done| ==> TileHolds(out, done[j].0, done[j].1) && Disjoint(done[j].0, t)
    modifies out
    ensures TileWritten(out, t, rows)
    ensures forall j :: 0 <= j < |done| ==> TileHolds(out, done[j].0, done[j].1)
  {
    WriteTile(out, t, rows);
    forall j | 0 <= j < |done|
      ensures TileHolds(out, done[j].0, done[j].1)
    {
      var u, kept := done[j].0, done[j].1.value;
      assert old(TileWritten(out, u, kept));
      forall b, i, k | 0 <= b < out.Length0 && 0 <= i < u.height && 0 <= k < u.width
        ensures out[b, u.row + i, u.col + k] == PixelRow(kept, u, i, k, out.Length0)[b]
      {
        assert Contains(u, u.row + i, u.col + k);
        assert old(out[b, u.row + i, u.col + k]) == PixelRow(kept, u, i, k, out.Length0)[b];
      }
    }
  }

  /** One more entry for the comprehension of `_managed_raster_parameters`. */
  lemma {:induction false} UnmanagedSnoc(o: seq<string>, v: string)
    ensures Unmanaged(o + [v]) == Unmanaged(o) + (if IsManaged(v) then [] else [v])
  {
    if o == [] {
      assert o + [v] == [v];
    } else {
      assert (o + [v])[1..] == o[1..] + [v];
      UnmanagedSnoc(o[1..], v);
    }
  }

  /** The spatial branch of `_return_block`: `_iter_for_spatial_function`
      visits the tile column by column and line by line, and each window's
      result is stored at its pixel of `resFun` (a lines-by-columns array
      whose cells hold the bands); the first window whose result does not
      broadcast stops. */
  method SpatialFill(src: Source, e: Entry, t: Tile) returns (r: Result<seq<seq<int>>>)
    requires TileOf(src, t)
    ensures r == SpatialGrid(src, e, t)
  {
    var h, w := t.height, t.width;
    var resFun := new seq<int>[h, w]((i, j) => seq(e.bands, _ => 0));
    for idCol := 0 to w
      invariant forall i, j :: 0 <= i < h && 0 <= j < idCol ==> Filled(resFun, i, j, WindowValue(src, e, t, i, j))
    {
      var ok := FillColumn(src, e, t, resFun, idCol);
      if !ok {
        return Err(ShapeMismatch);
      }
    }
    CellsMatchGrid(src, e, t, resFun);
    r := Ok(Cells(resFun));
  }

  /** One pass of the inner loop of `_iter_for_spatial_function`: the
      windows of column `idCol` of the tile, line by line, each result stored
      at its pixel; false when a result does not broadcast. */
  method FillColumn(src: Source, e: Entry, t: Tile, resFun: array2<seq<int>>, idCol: nat) returns (ok: bool)
    requires TileOf(src, t) && idCol < t.width
    requires resFun.Length0 == t.height && resFun.Length1 == t.width
    modifies resFun
    ensures ok ==> forall i :: 0 <= i < t.height ==> Filled(resFun, i, idCol, WindowValue(src, e, t, i, idCol))
    ensures !ok ==> SpatialFails(src, e, t)
    ensures forall i, j :: 0 <= i < t.height && 0 <= j < t.width && j != idCol ==> resFun[i, j] == old(resFun[i, j])
  {
    for idRow := 0 to t.height
      invariant forall i :: 0 <= i < idRow ==> Filled(resFun, i, idCol, WindowValue(src, e, t, i, idCol))
      invariant forall i, j :: 0 <= i < t.height && 0 <= j < t.width && j != idCol ==> resFun[i, j] == old(resFun[i, j])
    {
      ok := FillCell(src, e, t, resFun, idRow, idCol);
      if !ok {
        return;
      }
    }
    ok := true;
  }

  /** The body of the inner loop of `_iter_for_spatial_function`: the window
      around line `i`, column `j` of the tile, its result stored at that
      pixel; false when the result does not broadcast. */
  method FillCell(src: Source, e: Entry, t: Tile, resFun: array2<seq<int>>, i: nat, j: nat) returns (ok: bool)
    requires TileOf(src, t) && i < t.height && j < t.width
    requires resFun.Length0 == t.height && resFun.Length1 == t.width
    modifies resFun
    ensures ok ==> Filled(resFun, i, j, WindowValue(src, e, t, i, j))
    ensures !ok ==> SpatialFails(src, e, t)
    ensures forall y, x :: 0 <= y < t.height && 0 <= x < t.width && x != j ==> resFun[y, x] == old(resFun[y, x])
    ensures forall y :: 0 <= y < t.height && y != i ==> resFun[y, j] == old(resFun[y, j])
  {
    var v := WindowValue(src, e, t, i, j);
    if v.Err? {
      WindowFails(src, e, t, i, j);
      return false;
    }
    resFun[i, j] := v.value;
    ok := true;
  }

  /** The result for the window around line `i`, column `j` of a tile,
      the pixel at `(t.row + i, t.col + j)` (`SpatialCellOf`). */
  function WindowValue(src: Source, e: Entry, t: Tile, i: nat, j: nat): (r: Result<seq<int>>)
    requires TileOf(src, t) && i < t.height && j < t.width
  {
    PairBound(i, j, t.height, t.width);
    SpatialCell(src, e, t, i * t.width + j)
  }

  /** Cell (i, j) of a lines-by-columns array holds the value `v`, which is
      a success. */
  predicate Filled(a: array2<seq<int>>, i: nat, j: nat, v: Result<seq<int>>)
    reads a
  {
    i < a.Length0 && j < a.Length1 && v.Ok? && a[i, j] == v.value
  }

  /** A window whose result does not broadcast makes the tile fail. */
  lemma WindowFails(src: Source, e: Entry, t: Tile, i: nat, j: nat)
    requires TileOf(src, t) && i < t.height && j < t.width && WindowValue(src, e, t, i, j).Err?
    ensures SpatialFails(src, e, t)
  {
    PairBound(i, j, t.height, t.width);
    MulMono(0, i, t.width);
    var p := i * t.width + j;
    assert p < t.height * t.width && SpatialCell(src, e, t, p).Err?;
  }

  /** The window at line `i`, column `j` of the tile is the one around the
      input pixel `(t.row + i, t.col + j)`. */
  lemma SpatialCellOf(src: Source, e: Entry, t: Tile, i: nat, j: nat)
    requires TileOf(src, t) && i < t.height && j < t.width
    ensures WindowValue(src, e, t, i, j) == SpatialValue(src, e, t.row + i, t.col + j)
  {
    PixelAtPair(t, i, j);
  }

  /** The cells of a lines-by-columns array, in C order. */
  function Cells(a: array2<seq<int>>): (rows: seq<seq<int>>)
    reads a
    ensures |rows| == a.Length0 * a.Length1
  {
    seq(a.Length0 * a.Length1, p requires 0 <= p < a.Length0 * a.Length1 reads a => CellAt(a, p))
  }

  /** Cell `p` of a lines-by-columns array, in C order. */
  function CellAt(a: array2<seq<int>>, p: nat): seq<int>
    reads a
    requires p < a.Length0 * a.Length1
  {
    IndexOfPair(p, a.Length0, a.Length1);
    a[p / a.Length1, p % a.Length1]
  }

  /** An array holding every window's result at its pixel is the spatial
      grid of the tile. */
  lemma CellsMatchGrid(src: Source, e: Entry, t: Tile, a: array2<seq<int>>)
    requires TileOf(src, t) && a.Length0 == t.height && a.Length1 == t.width
    requires forall i, j :: 0 <= i < t.height && 0 <= j < t.width ==> Filled(a, i, j, WindowValue(src, e, t, i, j))
    ensures SpatialGrid(src, e, t) == Ok(Cells(a))
  {
    var h, w := t.height, t.width;
    var rows := Cells(a);
    forall p | 0 <= p < h * w
      ensures SpatialCell(src, e, t, p).Ok? && rows[p] == SpatialCell(src, e, t, p).value
    {
      IndexOfPair(p, h, w);
      var i, j := p / w, p % w;
      assert i * w + j == p;
      assert Filled(a, i, j, WindowValue(src, e, t, i, j));
      assert rows[p] == CellAt(a, p);
    }
    assert !SpatialFails(src, e, t);
    var g := SpatialGrid(src, e, t);
    assert g.Ok? && |g.value| == |rows|;
    assert g.value == rows;
  }
}
