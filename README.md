# RasterMath, modelled in Dafny

This project models the tiled raster engine `RasterMath` of museotoolbox
(`museotoolbox.processing`) and the small lookup helpers around it.

`RasterMath` opens a raster, optionally with a mask raster. It cuts the
raster into row-major blocks ("tiles") and registers user functions, each
with its own GeoTIFF output. Then `run` visits every tile and, for each
registered function, does the following:

- It reads the tile. The tile is either flattened to one row per pixel (2-D
  mode) or kept as lines by columns by bands (3-D mode, `return_3d`).
- It flags the pixels that the mask raster masks (value 0), or whose first
  band holds the raster's nodata value.
- It hands the function either the unmasked rows or the masked cube. A
  spatial function is instead called once per pixel, on a window of
  `offset` pixels around it.
- It checks the band count of the result.
- It puts the nodata value back at the masked pixels.
- It writes the result band by band at the tile's place.

After the last tile, `run` sets each output's nodata value.

The model has the source's own form.

- **The engine.** `RasterMath` is a Dafny class (`Engine.RasterMath`) whose
  fields are the source's fields. These are the block sizes and block
  counts, the creation options, and the parallel lists `functions`,
  `functionsKwargs`, `outputs`, `outputNoData`, `_function_is_3d` and
  `_offsets`. Its methods update those fields.
- **Outputs.** Each output is an `OutputRaster` whose bands are an
  `array3<int>`. `run` writes it in place, tile by tile and band by band.
- **Loops.** The spatial fill of `_return_block` and the band-write loop of
  `run` are loops over arrays, called by the engine's methods. Two loops
  stand alone, each proved equal to the pure function that the read and the
  run use. `Tiling.ClampOffsets` has the decrement loops of
  `_generate_block_array`, and `Blocks.ReadWindow` uses its closed form
  `Tiling.ClampedOffsets`. `RowMask.FillRows` is the in-place fill of masked
  rows, and `TileSpec.Partial2D` uses its closed form `RowMask.Reinsert`.
- **Pure code.** Block planning, reading, masking, and the per-tile result
  of `run` are pure, so they are modelled as functions. The methods are
  proved against these functions:
  - `Tiling.IterBlock` gives the tiles of `_iter_block`.
  - `Blocks.ReadBlock` gives `_generate_block_array`.
  - `TileSpec.TileResult` gives what `run` writes for one function on one
    tile.
- **Generators.** `_iter_block` and `_iter_for_spatial_function` are modelled
  as functions that return the sequence their nested loops yield.
- **Inputs from outside.** User functions are an abstract parameter
  `Transform`: the block, the keyword arguments, and the array the function
  returns. GDAL datasets are in-memory integer grids. A masked array is a
  pair made of the value buffer and one mask flag per element.

`run`'s main loop is proved against an "outcome table". This table holds,
for each tile and each function, the rows `run` writes or the error it
raises. `Engine.RasterMath.Run` states the following:

- It succeeds exactly when no entry of the table is an error.
- When it fails, it stops at the first error in the source's loop order,
  which is tile by tile and then function by function.
- On success, every pixel of every output holds its row of its tile's
  result (`Engine.RasterMath.EveryPixelWritten`).

Where the docstrings and the code disagree, the model follows the code,
with two exceptions:

- The engine runs the corrected program wherever a row of "## Findings"
  names a defect. Each such defect is modelled as written by its own member,
  next to the correction the engine uses. The corrections are the per-pixel
  single-band layout, the mask layout and the nodata flags of
  `_generate_block_array` and `_filter_nodata`, the `>=` bound of
  `get_block`, the pixel-only probe slice of `_check_add_function`, one
  offset per function in `add_function`, and the (lines, cols) grid of a
  spatial function in 3-D mode. The "## Model" rows of these members say so.
- `custom_block_size` does not check its arguments. The model accepts an int
  of -1 or more and a float that is -1.0 or at least 0, not only one between
  0 and 1 (see `Tiling.ResolveBlockSize` under "## Left out").

The other places where the docstrings and the code disagree:

- `add_function` never uses `out_n_bands`: the band count always comes from
  the probe run.
- `_check_add_function` copies the custom options without their compress
  entry, then `_init_raster_parameters` replaces them all with the defaults
  (lines 821-831). The model keeps this as written: after any registration
  the options are the defaults, plus the block-size entries.

## Model

| member | source | states |
|---|---|---|
| GdalTypes.GdtFromMinMaxAsWritten | museotoolbox/processing/__init__.py:86-99 | The integer branch as written. A non-negative minimum gives Byte exactly up to 255, UInt16 exactly from 256 to 65535, and UInt32 otherwise. A negative minimum gives Int16 exactly when it is above -65535, and Int32 otherwise. |
| GdalTypes.GdtFromMinMaxInt16Overflow | museotoolbox/processing/__init__.py:95-97 | The ranges -40000..16 and -1..100000 are classified as Int16, which cannot hold them. |
| GdalTypes.GdtFromMinMax | museotoolbox/processing/__init__.py:86-99 | The corrected integer branch: unsigned codes for a non-negative minimum, signed codes otherwise. |
| GdalTypes.GdtFromMinMaxHoldsRange | museotoolbox/processing/__init__.py:86-99 | The corrected choice holds the whole range whenever a listed type of that signedness can. No narrower type of that signedness holds it. |
| GdalTypes.GdtFromMinMaxExamples | museotoolbox/processing/__init__.py:77-82 | The three docstring examples (260 gives 2, 16 gives 1, 16 with -260 gives 3) hold for both versions. |
| GdalTypes.NumpyToGdal | museotoolbox/processing/__init__.py:147-169 | A numpy name in the conversion table gets its table code. Any other name gets Float64 (7). The code is always a GDAL code between Byte and CFloat64 that is not a complex integer. |
| GdalTypes.NumpyToGdalPreservesIntegers | museotoolbox/processing/__init__.py:147-165 | Each numpy integer type narrower than 64 bits maps to a GDAL type that holds all its values. int64 and uint64 map to Int32, which does not. |
| GdalTypes.GdalToOtbAsWritten | museotoolbox/processing/__init__.py:204-223 | As written, the lookup raises exactly for code 12 and for codes below -12. Codes 0-11 get their table name, and codes above 12 get 'cdouble'. |
| GdalTypes.GdalToOtbAtTableLength | museotoolbox/processing/__init__.py:218-221 | Code 12 raises IndexError as written. |
| GdalTypes.GdalToOtb | museotoolbox/processing/__init__.py:204-223 | Corrected: every code from 12 up is 'cdouble'. It fails only below -12. |
| GdalTypes.GdalToOtbExamples | museotoolbox/processing/__init__.py:194-201 | The four docstring examples hold for both versions. |
| GdalTypes.ConvertDtToOtb | museotoolbox/processing/__init__.py:170-174 | `convert_dt(name, to_otb_dt=True)` never fails. It agrees with the as-written lookup, and an unknown name gives 'double'. |
| GdalTypes.DtypeMin | museotoolbox/processing/__init__.py:835-838 | The minimum of a numpy integer dtype is the lower bound of its range, and every minimum is at most 0. |
| Outcomes.PyIndex | museotoolbox/processing/__init__.py:221 | Python list indexing succeeds exactly for -len <= i < len, and negative positions count from the end. |
| Outcomes.TruncDiv | museotoolbox/processing/__init__.py:1145-1146 | `int(a / b)` truncates toward zero. For `a >= 0` the quotient is the largest `q` with `q * b <= a`; for `a < 0` it is the smallest `q` with `a <= q * b`; in both cases `q * b` lies between 0 and `a`. |
| OgrDriver.SplitExt | museotoolbox/processing/__init__.py:1834 | `os.path.splitext`: the two parts concatenate to the path. The extension is empty or starts with a dot, and it contains no separator. |
| OgrDriver.IndexOf | museotoolbox/processing/__init__.py:1843 | The first position of the extension in the list. |
| OgrDriver.GetOgrDriverFromFilename | museotoolbox/processing/__init__.py:1831-1845 | The result is an error (the Warning) exactly when the extension without its dot is not listed. Otherwise it is one of the listed drivers. |
| OgrDriver.DriverOfNamedExtension | museotoolbox/processing/__init__.py:1834-1845 | A stem ending in a character other than a separator or a dot, followed by a listed extension, selects the driver at that extension's position. |
| OgrDriver.GpkgExample | museotoolbox/processing/__init__.py:1826-1827 | 'goVegan.gpkg' selects 'GPKG'. |
| OgrDriver.ShpExample | museotoolbox/processing/__init__.py:1828-1829 | 'stopEatingAnimals.shp' selects 'ESRI Shapefile'. |
| RasterOptions.Upper | museotoolbox/processing/__init__.py:969-970 | ASCII upper-casing: each character is replaced by one character, the letters a to z by A to Z, and every other character is kept. Python's full Unicode `str.upper` is not modelled (see "## Left out"). |
| RasterOptions.StartsWithUpperIsUpper | museotoolbox/processing/__init__.py:969-970 | The character-wise test is `val.upper().startswith(word)`. |
| RasterOptions.NatToString | museotoolbox/processing/__init__.py:971-972 | `'{}'.format(n)` is a non-empty string of decimal digits. |
| RasterOptions.ParseNatToString | museotoolbox/processing/__init__.py:971-972 | The decimal text of a block size reads back as that size, so different sizes give different entries. |
| RasterOptions.Jobs | museotoolbox/processing/__init__.py:908-910 | The thread count is the CPU count minus one, and 1 when the CPU count is below 2. |
| RasterOptions.InitOptions | museotoolbox/processing/__init__.py:903-924 | The list is BIGTIFF=IF_NEEDED alone exactly when compress is falsy; otherwise it starts with BIGTIFF=IF_SAFER. The thread entry is present exactly for truthy compress on GDAL 2.1 or later. DEFLATE appears exactly for 'high', and so do PREDICTOR=2 and ZLEVEL=9, as the docstrings of `add_function` and `add_spatial_function` promise (lines 737 and 883). PACKBITS appears for any other truthy value. |
| RasterOptions.DropFirstCompress | museotoolbox/processing/__init__.py:824-829 | Without an entry starting with 'compress' the list is unchanged. With one, exactly the first such entry (RasterOptions.FirstCompress) is removed, and the others keep their order. |
| RasterOptions.FirstCompress | museotoolbox/processing/__init__.py:825-826 | `next(x for x in params if x.startswith('compress'))`: the position of an entry starting with 'compress', with none before it. |
| RasterOptions.ManagedFlags | museotoolbox/processing/__init__.py:969-970 | One flag per entry, set exactly when the entry is stripped. |
| RasterOptions.UnmanagedIsKeep | museotoolbox/processing/__init__.py:969-970 | The kept list is the entries whose flag is unset, in their original order, with repeats kept. |
| RasterOptions.UnmanagedAt | museotoolbox/processing/__init__.py:969-970 | Every kept entry appears in the result, at its rank among the kept entries. |
| RasterOptions.Unmanaged | museotoolbox/processing/__init__.py:969-970 | Keeps exactly the entries that do not start with BLOCKYSIZE, BLOCKXSIZE or TILED, ignoring case. Order and repeats are stated by RasterOptions.UnmanagedIsKeep and RasterOptions.UnmanagedAt. |
| RasterOptions.BlockEntries | museotoolbox/processing/__init__.py:971-975 | The appended entries: two or three of them. Their content is stated by RasterOptions.ManagedOptionsShape and RasterOptions.ManagedTiled. |
| RasterOptions.BlockEntriesManaged | museotoolbox/processing/__init__.py:969-975 | Every appended entry is one the next call would strip. |
| RasterOptions.ManagedOptionsShape | museotoolbox/processing/__init__.py:967-975 | The user's other entries stay, in order, ahead of BLOCKYSIZE and then BLOCKXSIZE. The managed entries of the result are exactly the new ones. |
| RasterOptions.ManagedTiled | museotoolbox/processing/__init__.py:973-975 | TILED=YES is present exactly for square blocks of 64, 128, ..., 4096, whatever TILED entries the list held before. |
| RasterOptions.ManagedIdempotent | museotoolbox/processing/__init__.py:967-975 | Managing twice with the same block size gives the same list as managing once. |
| RasterOptions.InitOptionsUnmanaged | museotoolbox/processing/__init__.py:969-970 | No default entry is one the block-size management strips. |
| NdArrays.ReshapeNdim | museotoolbox/processing/__init__.py:1195-1216 | The data and dtype are kept. In 2-D mode the result has at least 2 axes, and a matrix keeps its shape. In 3-D mode a vector is kept as it is, and anything else gets at least 3 axes. Arrays with 3 or more axes are unchanged. |
| NdArrays.ReshapeNdimIdempotent | museotoolbox/processing/__init__.py:1195-1216 | Reshaping twice is the same as reshaping once. |
| NdArrays.ReshapeNdimBands | museotoolbox/processing/__init__.py:1208-1216 | In 2-D mode a scalar or vector has one band, and a matrix keeps its shape. |
| NdArrays.ReshapeAtLeast2 | museotoolbox/processing/__init__.py:2053-2077 | `_reshape_ndim` turns a vector of n into an (n, 1) column with the same data, and leaves every other array unchanged. |
| NdArrays.ReshapeAtLeast2Example | museotoolbox/processing/__init__.py:2069-2073 | 45 elements become shape (45, 1). |
| NdArrays.BroadcastTo | museotoolbox/processing/__init__.py:1449-1452 | numpy broadcasting succeeds exactly when the shapes are broadcastable. Element e of the result is the source element that broadcasting maps to it. |
| NdArrays.BroadcastSame | museotoolbox/processing/__init__.py:1449-1452 | Broadcasting an array to its own shape gives the array back. |
| NdArrays.BroadcastSingle | museotoolbox/processing/__init__.py:1455 | A one-element array fills the whole target. |
| NdArrays.BroadcastRows | museotoolbox/processing/__init__.py:1456 | A matrix broadcasts to (rows, n) exactly when each of its axes equals the target's or is 1. |
| NdArrays.AsRowsFlatten | museotoolbox/processing/__init__.py:1479-1483 | Cutting the flattened rows of a block gives the rows back. |
| RowMask.Keep | museotoolbox/processing/__init__.py:1420-1422 | The unmasked rows: there are as many as the mask has False entries. |
| RowMask.KeepAt | museotoolbox/processing/__init__.py:1258-1259 | An unmasked row is kept at the rank given by the number of unmasked rows before it, so the order is kept. |
| RowMask.Reinsert | museotoolbox/processing/__init__.py:1454-1457 | One row per mask entry, each of which is the filler or a kept row. |
| RowMask.ReinsertAt | museotoolbox/processing/__init__.py:1454-1457 | A masked row gets the filler. An unmasked row gets the kept row whose rank is the number of unmasked rows before it. |
| RowMask.KeepReinsert | museotoolbox/processing/__init__.py:1454-1457 | Dropping the masked rows after reinsertion gives back the kept rows. |
| RowMask.ReinsertKeep | museotoolbox/processing/__init__.py:1454-1457 | Dropping the masked rows and then reinserting fills the masked rows and restores every unmasked row in place. |
| RowMask.FillRows | museotoolbox/processing/__init__.py:1454-1457 | The in-place fill of `tmp` leaves every cell equal to the reinsertion. |
| Blocks.Window | museotoolbox/processing/__init__.py:1066-1067 | `ReadAsArray` of a window has height times width cells. |
| Blocks.WindowAt | museotoolbox/processing/__init__.py:1066-1067 | Cell (i, j) of the window is the grid cell at line row + i, column col + j. |
| Blocks.WindowPixels | museotoolbox/processing/__init__.py:1066-1067 | Every pixel of a window of a valid raster has all its bands. |
| Blocks.BlockShape | museotoolbox/processing/__init__.py:1069-1073 | Corrected layout (pixels by bands, or lines by columns by bands) holding exactly the window's elements. |
| Blocks.SingleBandFlagsAsWritten | museotoolbox/processing/__init__.py:1097-1107 | The 2-D nodata flags as written for a single-band (h, w) read: one per pixel, the length of the corrected flags. |
| Blocks.SingleBandLineFlag | museotoolbox/processing/__init__.py:1097-1107 | As written, pixel (i, j) is flagged exactly when the first pixel of line i holds nodata. |
| Blocks.SingleBandNodataAsWritten | museotoolbox/processing/__init__.py:1097-1107 | On a 2 x 3 tile with nodata 9: 9 at (0, 0) flags all of line 0 where only that pixel should be flagged, and 9 at (0, 1) flags nothing. |
| Blocks.SingleBandRowsAsWritten | museotoolbox/processing/__init__.py:1069-1073 | As written, a single-band 2-D block has shape (h, w), one row per line. Corrected, it has one row per pixel, and there are more pixels than lines. |
| Blocks.MaskShape | museotoolbox/processing/__init__.py:1043-1046 | The mask window has one element per pixel. |
| Blocks.NodataFlags | museotoolbox/processing/__init__.py:1098 | One flag per pixel. |
| Blocks.MaskFlags | museotoolbox/processing/__init__.py:1095-1096 | The mask-or-nodata test fails exactly when the mask window does not broadcast to the block's band 1. |
| Blocks.FilterNoData | museotoolbox/processing/__init__.py:1083-1110 | Corrected `_filter_nodata`: one flag per pixel, or a shape error. |
| Blocks.CubeMaskAsWritten | museotoolbox/processing/__init__.py:1041-1046 | As written, a 3-D read in 2-D mode with a mask fails on a 2 x 2 tile. Corrected, it flags nothing on an unmasked tile. |
| Blocks.WhereTupleAsWritten | museotoolbox/processing/__init__.py:1097-1107 | As written, a 3-D read in 2-D mode without a mask marks whole lines. Corrected, it marks only the nodata pixel. |
| Blocks.FilterSameWindow | museotoolbox/processing/__init__.py:1094-1098 | With the tile's own mask window, a pixel is flagged exactly when its mask value is 0 or its band 1 is the nodata value. |
| Blocks.FilterCentreWindow | museotoolbox/processing/__init__.py:1094-1096 | With a 1 x 1 mask window, a pixel is flagged exactly when the centre is masked or the pixel holds nodata. |
| Blocks.MaskOf | museotoolbox/processing/__init__.py:1100-1107 | The block mask has one entry per element. |
| Blocks.MaskOfAt | museotoolbox/processing/__init__.py:1100-1107 | Every band of a pixel carries that pixel's flag. |
| Blocks.FirstColumnOfMask | museotoolbox/processing/__init__.py:1258 | `X.mask[:, 0]` of a block mask gives back the pixel flags. |
| Blocks.MaskOfAll | museotoolbox/processing/__init__.py:1416 | The whole block mask is set (or clear) exactly when every pixel flag is. |
| Blocks.ReadWindow | museotoolbox/processing/__init__.py:1052-1067 | The window read for an offset lies in the grid and contains the tile. It is the tile itself for offset 0. |
| Blocks.WindowPixelsOf | museotoolbox/processing/__init__.py:1066-1067 | One pixel of all bands per cell of the read window. |
| Blocks.MaskCells | museotoolbox/processing/__init__.py:1041-1044 | The mask window exists exactly when a mask raster is set, and covers the tile without the offset. |
| Blocks.BlockFlags | museotoolbox/processing/__init__.py:1075 | One flag per pixel of the read window, or a shape error. This is the corrected flag layout (see "## Findings", lines 1041-1046 and 1097-1107). |
| Blocks.BlockData | museotoolbox/processing/__init__.py:1066-1070 | The window's values, band values interleaved, with window area times bands elements. |
| Blocks.BlockDataAt | museotoolbox/processing/__init__.py:1066-1070 | Element b of window pixel (i, j) is band b of the raster pixel under it. |
| Blocks.ReadBlock | museotoolbox/processing/__init__.py:1015-1081 | `_generate_block_array`: it fails exactly when the flags do. Otherwise it has the block layout's shape, the raster's dtype and the window's data, and each element is masked where its pixel is flagged. The layout is the corrected one of `Blocks.BlockShape` (see "## Findings", lines 1069-1073). |
| Blocks.TileFlagsAt | museotoolbox/processing/__init__.py:1094-1098 | Without an offset the flags never fail, and pixel (i, j) is flagged exactly when its raster pixel is. |
| Blocks.ReadTileOk | museotoolbox/processing/__init__.py:1066-1075 | A read without offset never fails. |
| Blocks.CentreFlagsAt | museotoolbox/processing/__init__.py:1336 | A spatial window pixel is flagged exactly when the centre is masked or that pixel holds nodata. |
| Blocks.DropMasked | museotoolbox/processing/__init__.py:1250-1260 | `_return_unmasked_X` returns one row per unmasked pixel, with all bands and the dtype kept. |
| Blocks.DropMaskedRows | museotoolbox/processing/__init__.py:1258-1259 | Its rows are exactly the unmasked rows of the block, in order. |
| Blocks.BlockInput | museotoolbox/processing/__init__.py:1151-1157 | 2-D mode gives a plain matrix, and 3-D or forced 3-D gives a masked cube. It succeeds exactly when the read does. |
| Blocks.GetBlock | museotoolbox/processing/__init__.py:1112-1158 | A block number the lookup refuses makes `get_block` fail. The lookup is the corrected `>=` bound (see "## Findings", line 1137). |
| Blocks.BlockTileInside | museotoolbox/processing/__init__.py:1142-1149 | Any tile the lookup returns is non-empty and inside the grid. |
| Blocks.GetBlockOk | museotoolbox/processing/__init__.py:1137-1158 | For a number below n_blocks, `get_block` reads tile number i of `_iter_block` and succeeds. |
| Blocks.SliceRows | museotoolbox/processing/__init__.py:791 | `[:3, :3]` of a matrix has at most 3 rows and 3 columns. |
| Blocks.ProbeSliceAsWritten | museotoolbox/processing/__init__.py:791 | As written, the probe of a 2-D block keeps at most 3 pixels and at most 3 bands. |
| Blocks.ProbeSlice | museotoolbox/processing/__init__.py:791 | Corrected probe: at most 3 pixels with all bands, or at most 3 by 3 pixels of a cube with all bands. |
| Registration.InferNodata | museotoolbox/processing/__init__.py:833-849 | With out_nodata True, a source nodata or a mask, the value is the dtype minimum, or the given number when it is not below that minimum. A dtype without a minimum raises. Otherwise the argument is stored as passed. |
| Registration.MaskedSourceHasNodata | museotoolbox/processing/__init__.py:833-844 | A source with nodata or a mask always gets an output nodata value. |
| Registration.ProbeBandsOfShape | museotoolbox/processing/__init__.py:809-811 | The detected band count is 1 for a vector in 2-D or a matrix in 3-D, and the last axis otherwise. |
| Registration.DtypeName | museotoolbox/processing/__init__.py:799-806 | The requested dtype if given, else the result's dtype. |
| Registration.ProbeBlock | museotoolbox/processing/__init__.py:1182 | The block `get_block(k, force_3d=spatial)` returns has the layout of its mode. |
| Registration.BlockIsProbe | museotoolbox/processing/__init__.py:1181-1193 | Any such block that is not fully masked is a valid probe for `get_random_block`. |
| Registration.CheckAddFunction | museotoolbox/processing/__init__.py:789-852 | Fails exactly when the nodata inference fails. On success it records the band count detected on the probe result, the GDAL code of its dtype, and the inferred nodata. The probe is the corrected pixel-only slice `Blocks.ProbeSlice` (see "## Findings", line 791). |
| Registration.ProbeCutsBands | museotoolbox/processing/__init__.py:789-811 | The identity on a 4-band 2-D block is registered with 3 bands as written, and with 4 corrected. |
| TileSpec.PixelAt | museotoolbox/processing/__init__.py:1072-1073 | Pixel p of a block in C order is at line row + p / width, column col + p % width, inside the tile. |
| TileSpec.PixelAtPair | museotoolbox/processing/__init__.py:1072-1073 | Line i, column j of a tile is its pixel i * width + j. |
| TileSpec.TileFlags | museotoolbox/processing/__init__.py:1087-1098 | One flag per pixel of the tile, each equal to the raster pixel's masked-or-nodata flag. |
| TileSpec.TileFlagsPixels | museotoolbox/processing/__init__.py:1087-1098 | The read's flags succeed and are exactly those pixel flags. |
| TileSpec.SpatialValue | museotoolbox/processing/__init__.py:1376-1377 | The function's value on the window around a pixel has the output's band count, or the error is a shape mismatch. |
| TileSpec.SpatialGrid | museotoolbox/processing/__init__.py:1369-1377 | Fails exactly when some window's result does not broadcast. Otherwise it has one row of bands per pixel, each the result at that pixel. |
| TileSpec.SpatialGridAt | museotoolbox/processing/__init__.py:1376-1377 | The row of pixel p is the function's value on the window read around p with force_3d, broadcast to the bands. |
| TileSpec.BlockResult | museotoolbox/processing/__init__.py:1340-1387 | `_return_block` fails only for a spatial function whose window fails. A spatial result has shape (lines, cols, bands), and a 2-D result at least 2 axes. The spatial grid is the corrected one, also in 3-D mode (see "## Findings", lines 1371-1373). |
| TileSpec.GridCube | museotoolbox/processing/__init__.py:1373-1377 | The spatial results form a (lines, cols, bands) array. |
| TileSpec.PointwiseBlock | museotoolbox/processing/__init__.py:1378-1385 | The function's result after `reshape_ndim` has at least 1 axis, and at least 2 in 2-D mode. |
| TileSpec.FillRow | museotoolbox/processing/__init__.py:1449-1455 | The row for a masked pixel holds the nodata value in every band, or 0 when nodata is False. |
| TileSpec.Partial3D | museotoolbox/processing/__init__.py:1444-1452 | The 3-D fill fails exactly when the result does not broadcast to the tile's cube. Otherwise it has one row per pixel. |
| TileSpec.Partial3DAt | museotoolbox/processing/__init__.py:1449-1452 | A masked pixel gets the fill row. An unmasked pixel gets the broadcast result at its own place. |
| TileSpec.Partial2D | museotoolbox/processing/__init__.py:1453-1457 | The 2-D fill fails exactly when the result does not broadcast to one row per unmasked pixel. Otherwise it has one row per pixel. |
| TileSpec.Partial2DRows | museotoolbox/processing/__init__.py:1453-1457 | Masked pixels get the fill row. Dropping them again gives exactly the function's rows. |
| TileSpec.Partial2DAt | museotoolbox/processing/__init__.py:1453-1457 | Unmasked pixel p gets the result row whose rank is the number of unmasked pixels before p. |
| TileSpec.Unmasked | museotoolbox/processing/__init__.py:1474-1486 | In the model, a tile without masked pixels is written exactly when the result's last axis is the band count and it has one value per pixel and band before it. Too few bands gives IndexError. In 2-D mode this is the source's `reshape(lines, cols)` condition. In 3-D mode the model demands the (lines, cols) shape, which is stricter than the source (see `TileSpec.Unmasked` under "## Left out"). |
| TileSpec.UnmaskedAt | museotoolbox/processing/__init__.py:1479-1483 | Each written value is the result's element for that pixel and band. |
| TileSpec.TileResult | museotoolbox/processing/__init__.py:1413-1472 | The rows written for one function on one tile: one row of the output's band count per pixel. |
| TileSpec.FullyMaskedTile | museotoolbox/processing/__init__.py:1459-1470 | A fully masked tile fails exactly when nodata is False. Otherwise every value written is the nodata value. |
| TileSpec.TooManyBands | museotoolbox/processing/__init__.py:1428-1432 | A result with more bands than the output raises the band ValueError. |
| TileSpec.PartlyMasked2D | museotoolbox/processing/__init__.py:1434-1457 | A partly masked tile of a pointwise function in 2-D goes through the 2-D fill. |
| TileSpec.PartlyMasked3D | museotoolbox/processing/__init__.py:1444-1452 | In 3-D, or for a spatial function, a partly masked tile goes through the 3-D fill. |
| TileSpec.UnmaskedTile | museotoolbox/processing/__init__.py:1474-1486 | A tile without masked pixels is written as the function returned it. |
| TileSpec.SpatialOffsetAsWritten | museotoolbox/processing/__init__.py:1376 | `self._offsets[idx]` fails for every index beyond the spatial functions registered so far. |
| TileSpec.OffsetsAsWritten | museotoolbox/processing/__init__.py:898 | `_offsets` gets one entry per `add_spatial_function` call and none for `add_function`, so it is never longer than the registrations. |
| TileSpec.OffsetsPerFunction | museotoolbox/processing/__init__.py:1376 | The intended list: one offset per registered function, in order, the spatial function's own offset or 0 for a pointwise one. |
| TileSpec.OffsetsAlignedWhenAllSpatial | museotoolbox/processing/__init__.py:898 | When every registration is spatial, the list as written equals the per-function list, so `_offsets[idx]` is right. |
| TileSpec.SpatialOffsetMisaligned | museotoolbox/processing/__init__.py:898 | A pointwise function then spatial functions with offsets 1 and 2: as written, function 1 silently gets offset 2 and function 2 raises IndexError; the per-function list gives 1 and 2. |
| TileSpec.SpatialShapeAsWritten | museotoolbox/processing/__init__.py:1371-1373 | As written, the shape lookup fails exactly for blocks with more than 2 axes. |
| TileSpec.SpatialShapeWithReturn3d | museotoolbox/processing/__init__.py:1371-1373 | With return_3d every block read is 3-D, so a spatial function never runs as written. |
| Tiling.Range | museotoolbox/processing/__init__.py:1003-1004 | `range(start, stop, step)` has ceil((stop - start) / step) elements. |
| Tiling.RangeAt | museotoolbox/processing/__init__.py:1003-1004 | Element k is start + k * step. |
| Tiling.NestAt | museotoolbox/processing/__init__.py:1003-1013 | Element k of two nested loops comes from outer k / inner length and inner k % inner length. |
| Tiling.IterBlock | museotoolbox/processing/__init__.py:996-1013 | `_iter_block` yields n_blocks tiles. |
| Tiling.IterBlockAtPair | museotoolbox/processing/__init__.py:1003-1006 | The tile at block line a, block column b is number a * nx + b, and starts at (a * y_block_size, b * x_block_size). |
| Tiling.IterBlockAt | museotoolbox/processing/__init__.py:1003-1006 | Tile i is at block line i / nx and block column i % nx. |
| Tiling.TileInside | museotoolbox/processing/__init__.py:1005-1006 | Each tile is non-empty and inside the grid, with width min(n_columns - col, x_block_size) and height min(n_lines - row, y_block_size). |
| Tiling.TileOfPixel | museotoolbox/processing/__init__.py:1003-1006 | Every pixel lies in some tile. |
| Tiling.TileOfPixelUnique | museotoolbox/processing/__init__.py:1003-1006 | No pixel lies in two tiles. |
| Tiling.TileIndexExact | museotoolbox/processing/__init__.py:1003-1013 | Each pixel lies in exactly one tile. |
| Tiling.TilesArea | museotoolbox/processing/__init__.py:1003-1013 | The tiles' areas sum to n_columns * n_lines. |
| Tiling.GetBlockMatchesIterBlock | museotoolbox/processing/__init__.py:1137-1152 | For i < n_blocks, both versions of `get_block` address tile i of `_iter_block`. |
| Tiling.GetBlockAtNBlocks | museotoolbox/processing/__init__.py:1137-1146 | Block n_blocks raises IndexError as written, and the ValueError when corrected. |
| Tiling.GetBlockTileBound | museotoolbox/processing/__init__.py:1137-1140 | The corrected lookup succeeds for a non-negative number exactly below n_blocks. |
| Tiling.ResolveBlockSize | museotoolbox/processing/__init__.py:1286-1303 | A falsy value keeps the previous size and -1 takes the whole axis. A positive int is taken as is. A positive fraction gives the least size with size >= n * fraction. The size is always positive. |
| Tiling.ClampedOffsets | museotoolbox/processing/__init__.py:1052-1063 | Each edge offset is at most the offset, and keeps the read inside the grid. It is cut only when the read reaches that edge. |
| Tiling.ClampOffsets | museotoolbox/processing/__init__.py:1052-1063 | The four decrement loops end at the closed-form clamp. |
| Tiling.WindowInBounds | museotoolbox/processing/__init__.py:1052-1067 | The read window lies in the grid and contains the tile. It is at most twice the offset wider and higher than the tile. |
| Tiling.SpatialStepAt | museotoolbox/processing/__init__.py:1334-1337 | Step k visits tile column k / height and line k % height, and reads that pixel of the tile. |
| Tiling.SpatialStepOfPixel | museotoolbox/processing/__init__.py:1334-1337 | Every pixel of the tile is visited, by step i * height + j. |
| Engine.OutputRaster.constructor | museotoolbox/processing/__init__.py:983-992 | A new output of the given size, band count, data type and options, all zeros, without nodata. |
| Engine.RasterMath.constructor | museotoolbox/processing/__init__.py:617-679 | The block size is the given one, or the input's when block_size is False. The counts are consistent and all lists are empty. |
| Engine.RasterMath.CustomBlockSize | museotoolbox/processing/__init__.py:1270-1315 | Each axis is resolved against the previous block_sizes, and n_blocks equals n_y_blocks * n_x_blocks, the lengths of the two ranges. |
| Engine.RasterMath.InitRasterParameters | museotoolbox/processing/__init__.py:903-924 | The options become the defaults for compress. |
| Engine.RasterMath.GetRasterParameters | museotoolbox/processing/__init__.py:926-942 | Empty options are first set to the compressed defaults. The result is the options and is never empty. |
| Engine.RasterMath.CustomRasterParameters | museotoolbox/processing/__init__.py:944-965 | The options become the given list. |
| Engine.RasterMath.ManagedRasterParameters | museotoolbox/processing/__init__.py:967-975 | The options become the managed options of the old ones for the current block size. |
| Engine.RasterMath.AddOutput | museotoolbox/processing/__init__.py:977-994 | The options are managed and one new all-zero output is appended with them. The earlier outputs are kept. |
| Engine.RasterMath.CheckAddFunction | museotoolbox/processing/__init__.py:762-852 | The options are reset to the defaults. Its result is registration on the probe. On success exactly one nodata entry and one 3-D flag are appended, and on failure none. |
| Engine.RasterMath.AddFunction | museotoolbox/processing/__init__.py:710-760 | On success the six lists grow in step: the function, its kwargs, a new output of the detected bands and type, its nodata, False, and offset 0. Appending offset 0 is the correction of "## Findings", line 1376: the source appends nothing here. On failure no list changes. |
| Engine.RasterMath.AddSpatialFunction | museotoolbox/processing/__init__.py:854-900 | The same, with True and the given offset. |
| Engine.RasterMath.AppendFunction | museotoolbox/processing/__init__.py:897-900 | One output, function, kwargs and offset are appended, and the lists stay in step. |
| Engine.RasterMath.ReturnBlock | museotoolbox/processing/__init__.py:1340-1387 | Computes `_return_block` for that function on that tile. |
| Engine.RasterMath.TileIndexAt | museotoolbox/processing/__init__.py:1003-1013 | The one tile holding a pixel. |
| Engine.RasterMath.PixelOf | museotoolbox/processing/__init__.py:1474-1486 | What `run` writes at a pixel: a row of the output's band count. |
| Engine.RasterMath.Outcome | museotoolbox/processing/__init__.py:1413-1486 | The outcome of one function on one tile: one row per pixel of the output's band count. |
| Engine.RasterMath.ProcessTile | museotoolbox/processing/__init__.py:1413-1472 | The loop body of `run` computes the tile's specified outcome. |
| Engine.RasterMath.WriteResult | museotoolbox/processing/__init__.py:1474-1486 | Writing tile k keeps the tiles before it written. Every other output is untouched. |
| Engine.RasterMath.RunStep | museotoolbox/processing/__init__.py:1413-1486 | One function on one tile succeeds exactly when its table entry does. On success the tile is written; on failure its output is unchanged; other outputs are untouched either way. |
| Engine.RasterMath.TilesDisjoint | museotoolbox/processing/__init__.py:1003-1006 | Two different tiles share no pixel. |
| Engine.RasterMath.SetNoData | museotoolbox/processing/__init__.py:1492-1497 | Each output whose nodata is not False gets it, the others keep theirs, and no band changes. |
| Engine.RasterMath.RunTile | museotoolbox/processing/__init__.py:1413-1486 | Every function on one tile, in order. On success each has succeeded and written that tile. On failure the failing function is the first in order, the earlier ones have written the tile, and the later ones hold only the earlier tiles. |
| Engine.RasterMath.RunTiles | museotoolbox/processing/__init__.py:1401-1488 | Succeeds exactly when every table entry does, with every output written and position advanced by n_blocks. Otherwise it stops at the first failing pair in loop order; the functions before it hold that tile as well, the others only the earlier tiles (Engine.RasterMath.WrittenUntil). |
| Engine.RasterMath.Run | museotoolbox/processing/__init__.py:1389-1504 | The same for the table of the current registrations. Nodata is set only after the last tile, and is untouched when the run fails; on failure the outputs are as Engine.RasterMath.WrittenUntil says. |
| Engine.RasterMath.PixelWritten | museotoolbox/processing/__init__.py:1474-1486 | After a complete run, each pixel of an output holds its row of its tile's result. |
| Engine.RasterMath.EveryPixelWritten | museotoolbox/processing/__init__.py:1401-1486 | The same for every band, line and column at once. |
| Engine.SucceededUpToIff | museotoolbox/processing/__init__.py:1401-1413 | The loop has reached (k, idx) exactly when every earlier pair in loop order succeeded. |
| Engine.FailureStops | museotoolbox/processing/__init__.py:1428-1432 | Any failing pair makes the run fail. |
| Engine.WriteBand | museotoolbox/processing/__init__.py:1474-1486 | Band b of the tile receives its rows' values, and nothing else changes. |
| Engine.WriteTile | museotoolbox/processing/__init__.py:1474-1486 | Every band of the tile is written, and nothing outside the tile changes. |
| Engine.WriteTileKeeping | museotoolbox/processing/__init__.py:1474-1486 | Tiles written before and disjoint from this one keep their rows. |
| Engine.SpatialFill | museotoolbox/processing/__init__.py:1369-1377 | The fill of `resFun` yields the tile's spatial grid, or its error. |
| Engine.FillColumn | museotoolbox/processing/__init__.py:1376-1377 | Fills one column's cells with their window results, and changes no other column. False only when the tile fails. |
| Engine.FillCell | museotoolbox/processing/__init__.py:1376-1377 | Fills one cell with its window result, and changes no other cell. False only when the tile fails. |
| Engine.WindowFails | museotoolbox/processing/__init__.py:1376-1377 | One failing window fails the tile. |
| Engine.SpatialCellOf | museotoolbox/processing/__init__.py:1334-1337 | The window at (i, j) of the tile is the one around pixel (row + i, col + j). |
| Engine.CellsMatchGrid | museotoolbox/processing/__init__.py:1373-1377 | An array holding every window result is the tile's spatial grid. |

## Left out

- GDAL and OGR I/O: opening files, `add_image`, creating directories, `FlushCache`, and closing outputs (`outputs[idx] = None`). Inputs are in-memory grids, and outputs are in-memory `OutputRaster` objects.
- Several input images (`opened_images` with more than one raster). The model reads exactly one raster. With several images, the probe slicing of `_check_add_function` and the list handling of `run` are not captured.
- `get_random_block` and its random number generator. The registration probe is a parameter: any block `get_block` returns that is not fully masked (`Registration.BlockIsProbe`). When every block is fully masked, the source's loop runs past the last block and `rdm[idx]` raises IndexError (lines 1177-1192); that error is not modelled. The 2-D probe is also a different Python type from the 2-D input of `run`. At registration it is `np.ma.copy` of the unmasked rows (line 1157): a masked array with no masked element. In `run` the function gets the plain array `.data` (line 1422). Both hold the same values, and the model gives both as the same plain array (`Registration.ProbeBlock`), so a user function that behaves differently on masked arrays is not captured.
- `read_band_per_band` and `read_block_per_block`. These are generators outside the engine's run; they read whole bands or yield blocks and hold no logic beyond `_iter_block`.
- Floating point:
  - the float branch of `get_gdt_from_minmax_values`;
  - `np.nan_to_num` on results (lines 1471-1472);
  - float pixel values.
  Pixel values and results are integers.
- `GdalTypes.DtypeMin`: the float minimums are the integer constants -max of each IEEE format, not `np.finfo` floats.
- `convert_dt`'s GDAL-to-numpy branch, which is a call into `gdal_array`.
- `Tiling.ResolveBlockSize`: a float block size is modelled as an exact fraction `num / den`, not a binary float. Its precondition `Tiling.SupportedArg` excludes negative ints other than -1 and negative floats other than -1.0. `custom_block_size` (lines 1286-1303) does not reject them; it stores a block size of zero or less, and the block count and tiles that follow are not modelled for it.
- `RasterOptions.Upper`: ASCII only. Python's `str.upper` is full Unicode: 'ß' becomes 'SS', so the length can change, and 'ı' becomes 'I'. The source therefore strips 'tıled=yes', because its upper case starts with TILED, while `RasterOptions.Unmanaged` keeps it.
- User functions that raise. `Transform` is total. In the source the user function can raise in the probe of `_check_add_function` (lines 793-797), which aborts the registration before any list grows, and in `run` (lines 1420-1425), which aborts the run after the earlier tiles were written. The model has no error from the user function itself; only the engine's own checks fail.
- Integer widths of the outputs. Output bands are `array3<int>` and keep any value. The source casts to the output's data type, with `tmp.astype(resFun.dtype)` (line 1454) and in `WriteArray` (line 1485), so for example 70000 written to a UInt16 output does not survive.
- `TileSpec.Partial3D`: the model broadcasts the result one way, to the tile's (lines, cols, bands) cube, and fails otherwise. The source's `np.where(tmp, nodata, resFun)` (lines 1449-1452) broadcasts both operands, the mask too. A result larger than a tile of 1 line or 1 column therefore still succeeds in the source. Take a partly masked tile of 1 line by 2 columns and a function returning shape (5, 2, 1): numpy gives (5, 2, 1), and the band loop (lines 1474-1485) writes a 5 x 2 patch at the tile's corner. That patch overwrites the following tiles, or fails at the raster's edge. The model stops the run with a shape error there.
- `TileSpec.Unmasked`: a result with fewer bands than the output (L < RasterCount) is reported as an error before anything is written. The source first writes bands 0 to L-1 of that tile and only then raises IndexError at line 1479, so those bands of the tile stay written in the output. In 3-D mode the model also fails every result whose first two axes are not the tile's (lines, cols). The source checks no such shape there. It hands each band slice `resFun[..., ind]` to `WriteArray` at the tile's corner (lines 1479-1485), and GDAL writes any 2-D slice that fits in the raster from that corner. So a (2, 2, 1) result on an unmasked 4 x 4 tile at (0, 0) writes the 2 x 2 corner in the source and continues, while the model stops the run. A larger slice overwrites part of the following tiles. GDAL fails only for a slice that is not 2-D or runs past the raster's edge. Writing such patches is not modelled, here or in `TileSpec.Partial3D`, so `Engine.RasterMath.EveryPixelWritten` holds for the model's stricter run only.
- User functions are an abstract `Transform`. Their introspection (`__name__`, the arity used by `**kwargs`) is not modelled. Keyword arguments are a `map<string, int>`.
- `OgrDriver.SplitExt`: the POSIX `os.path.splitext` only. On Windows `os.path` is `ntpath`, which also splits at '\\' and after a drive letter such as `C:`; that variant is not modelled.
- Progress bar, `verbose` and `push_feedback` messages.
- The CPU count and the GDAL version check are a parameter `Env` of the engine.
- `out_n_bands` and `compress`'s effect on the file itself. The model records the creation options but does not compress.
- Everything outside the engine and the helpers above: `extract_ROI`, `rasterize`, `image_mask_from_vector`, `sample_extraction`, `read_vector_values`, `get_distance_matrix`, `_pixel_location_from_centroid` and the rest of the package.

## Findings

| source | as written | input that shows it | evidently intended | confidence | as-written member | corrected member |
|---|---|---|---|---|---|---|
| museotoolbox/processing/__init__.py:1069-1073 | A single-band read is (lines, cols), and `reshape(-1, shape[-1])` keeps it. In 2-D mode each row is a whole line, and nodata is checked on its first pixel. In 3-D mode `_filter_nodata` repeats the (lines, cols) mask over the last axis, which is the column axis here. This gives a (lines, cols, cols) mask, so `np.ma.masked_array` fails for any tile wider than one column (lines 1099-1107). | A 1-band raster, tile of 2 lines by 3 columns, nodata 9, 2-D mode: 9 at (0, 0) flags all of line 0, and 9 at (0, 1) flags nothing | One row per pixel with one band, each pixel flagged on its own value | not executed | Blocks.SingleBandNodataAsWritten | Blocks.BlockShape |
| museotoolbox/processing/__init__.py:1041-1046 | The mask window is flattened whenever return_3d is off, even for a forced 3-D read. | `add_spatial_function` with a mask raster in 2-D mode: the 2 x 2 probe tile's flattened mask does not broadcast | The mask keeps the layout of the read | not executed | Blocks.CubeMaskAsWritten | Blocks.FilterSameWindow |
| museotoolbox/processing/__init__.py:1097-1107 | Without a mask, `tmpMask[np.where(...), :]` on a 3-D read in 2-D mode uses the (lines, columns) tuple as indices of the first axis. | Nodata 9 at line 0, column 1 of a 2 x 2 forced 3-D read: lines 0 and 1 are both marked | Only that pixel is marked | not executed | Blocks.WhereTupleAsWritten | Blocks.FilterSameWindow |
| museotoolbox/processing/__init__.py:1376 | `_offsets` grows only for spatial functions but is indexed by the position among all functions. | `add_function(f)`, `add_spatial_function(g, offset=1)`, `add_spatial_function(h, offset=2)`: `g` silently runs with offset 2 and `h` raises IndexError | One offset per function, 0 for pointwise ones | not executed | TileSpec.SpatialOffsetMisaligned | Engine.RasterMath.AddFunction |
| museotoolbox/processing/__init__.py:1371-1373 | `X_reshape` is bound only when the block has 2 axes or fewer. | Any spatial function with return_3d=True: UnboundLocalError | The grid has the tile's (lines, cols) | not executed | TileSpec.SpatialShapeWithReturn3d | TileSpec.BlockResult |
| museotoolbox/processing/__init__.py:1137 | `block_number > n_blocks` lets n_blocks itself through. | `get_block(n_blocks)` raises IndexError instead of the ValueError | `>=`, as the message says | not executed | Tiling.GetBlockAtNBlocks | Tiling.GetBlockTileBound |
| museotoolbox/processing/__init__.py:218 | `dt > len(code)` lets 12 through to `code[12]`. | `_convert_gdal_to_otb_dt(12)` raises IndexError | 'cdouble' from 12 on | not executed | GdalTypes.GdalToOtbAtTableLength | GdalTypes.GdalToOtb |
| museotoolbox/processing/__init__.py:96 | Int16 for any minimum above -65535, and the maximum is ignored when the minimum is negative. | min -40000, max 16; or min -1, max 100000: Int16 cannot hold either range | The narrowest signed type that holds both bounds | not executed | GdalTypes.GdtFromMinMaxInt16Overflow | GdalTypes.GdtFromMinMaxHoldsRange |
| museotoolbox/processing/__init__.py:791 | `random_block[:3, :3, ...]` on a 2-D block also cuts the bands to 3. | A 4-band raster in 2-D mode and a function returning its input: registered with 3 bands, so every unmasked tile raises the band ValueError | Cut pixels only, keep all bands | not executed | Registration.ProbeCutsBands | Blocks.ProbeSlice |
