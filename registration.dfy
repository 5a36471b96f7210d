/** What `_check_add_function` infers when a function is registered: the
    output band count from a probe run, the output data type, and the
    output nodata value. */
module Registration {
  import opened Outcomes
  import opened NdArrays
  import opened Tiling
  import opened GdalTypes
  import opened Blocks
  import opened TileSpec

  /** The `out_nodata` argument: False (the default), True, or a number. */
  datatype NodataArg = NodataFalse | NodataTrue | NodataValue(v: int)

  /** True when `_check_add_function` replaces the argument by the dtype
      minimum: `out_nodata is True`, a source nodata value, or a mask. */
  predicate UsesMinimum(arg: NodataArg, sourceNodata: Option<int>, hasMask: bool) {
    arg == NodataTrue || sourceNodata.Some? || hasMask
  }

  /** The nodata value stored in `outputNoData` (None stands for False). */
  function InferNodata(arg: NodataArg, sourceNodata: Option<int>, hasMask: bool, dtypeName: string): (r: Result<Option<int>>)
    ensures r.Err? <==> UsesMinimum(arg, sourceNodata, hasMask) && DtypeMin(dtypeName).None?
    ensures r.Err? ==> r.error == NoMinimum
    ensures r.Ok? && UsesMinimum(arg, sourceNodata, hasMask) ==>
      && r.value.Some? && r.value.value >= DtypeMin(dtypeName).value
      && (!arg.NodataValue? || arg.v < DtypeMin(dtypeName).value ==> r.value.value == DtypeMin(dtypeName).value)
      && (arg.NodataValue? && arg.v >= DtypeMin(dtypeName).value ==> r.value.value == arg.v)
    ensures !UsesMinimum(arg, sourceNodata, hasMask) ==>
      r == Ok(if arg.NodataValue? then Some(arg.v) else None)
  {
    if UsesMinimum(arg, sourceNodata, hasMask) then
      match DtypeMin(dtypeName)
      case None => Err(NoMinimum)
      case Some(minValue) =>
        match arg
        case NodataValue(v) => Ok(Some(if v < minValue then minValue else v))
        case _ => Ok(Some(minValue))
    else
      match arg
      case NodataValue(v) => Ok(Some(v))
      case _ => Ok(None)
  }

  /** Whatever is passed, a source with nodata or a mask always gets a
      nodata value, so its fully masked tiles never stop the run. */
  lemma MaskedSourceHasNodata(arg: NodataArg, src: Source, dtypeName: string)
    requires src.image.nodata.Some? || src.mask.Some?
    requires DtypeMin(dtypeName).Some?
    ensures var r := InferNodata(arg, src.image.nodata, src.mask.Some?, dtypeName);
      r.Ok? && r.value.Some?
  {
  }

  /** The band count read off the probe result: the last axis after
      `reshape_ndim(result, force_3d=spatial)`. */
  function ProbeBands(result: Array, return3d: bool, spatial: bool): (bands: nat)
  {
    var r := ReshapeNdim(result, return3d || spatial);
    assert |r.shape| >= 1 by {
      if |result.shape| != 1 { assert |r.shape| >= 2; }
    }
    Last(r.shape)
  }

  /** In 2-D a vector result is one band per pixel and a matrix has as many
      bands as columns; in 3-D a matrix is one band and a cube has as many
      bands as its last axis. */
  lemma ProbeBandsOfShape(result: Array, return3d: bool, spatial: bool)
    ensures !return3d && !spatial && |result.shape| == 1 ==> ProbeBands(result, return3d, spatial) == 1
    ensures (return3d || spatial) && |result.shape| == 2 ==> ProbeBands(result, return3d, spatial) == 1
    ensures |result.shape| >= 2 && !return3d && !spatial ==>
      ProbeBands(result, return3d, spatial) == Last(result.shape)
    ensures |result.shape| >= 3 ==> ProbeBands(result, return3d, spatial) == Last(result.shape)
  {
    ReshapeNdimBands(result);
  }

  /** The numpy dtype name of the output: the requested one, or the
      result's. */
  function DtypeName(outNpDt: Option<string>, result: Array): (name: string)
    ensures outNpDt.Some? ==> name == outNpDt.value
    ensures outNpDt.None? ==> name == result.dtype
  {
    outNpDt.GetOr(result.dtype)
  }

  /** The block `get_block(k, force_3d=spatial)` returns; the registration
      probe is one of these. */
  function ProbeBlock(src: Source, xBlock: nat, yBlock: nat, k: nat, spatial: bool): (x: FunInput)
    requires SourceValid(src) && xBlock > 0 && yBlock > 0 && src.image.nColumns > 0
    requires k < NBlocks(src.image.nColumns, src.image.nLines, xBlock, yBlock)
    ensures !spatial && !src.return3d ==> x.Plain? && |x.a.shape| == 2
    ensures spatial || src.return3d ==> x.MaskedIn? && |x.m.arr.shape| == 3 && MaskedValid(x.m)
  {
    GetBlockOk(src, xBlock, yBlock, k, spatial);
    GetBlock(src, xBlock, yBlock, k, 0, spatial).value
  }

  /** A block `get_random_block` may return: in the 2-D layout a matrix of
      pixels by bands, in the 3-D layout a masked cube, and in both at least
      one element and not every element masked. */
  predicate ProbeOf(probe: FunInput, cube: bool) {
    && (probe.Plain? ==> |probe.a.shape| == 2)
    && (probe.MaskedIn? ==> |probe.m.arr.shape| == 3 && MaskedValid(probe.m))
    && (probe.MaskedIn? <==> cube)
    && NotFullyMasked(probe)
  }

  /** Every tile `get_block` reads that is not fully masked is such a block. */
  lemma BlockIsProbe(src: Source, xBlock: nat, yBlock: nat, k: nat, spatial: bool)
    requires SourceValid(src) && xBlock > 0 && yBlock > 0 && src.image.nColumns > 0
    requires k < NBlocks(src.image.nColumns, src.image.nLines, xBlock, yBlock)
    requires NotFullyMasked(ProbeBlock(src, xBlock, yBlock, k, spatial))
    ensures ProbeOf(ProbeBlock(src, xBlock, yBlock, k, spatial), src.return3d || spatial)
  {
  }

  /** What registration records for the new output. */
  datatype Registered = Registered(bands: nat, dataType: int, nodata: Option<int>)

  /** `_check_add_function` on a probe block: run the function on the slice
      of the probe, read its band count and dtype, and decide the nodata
      value. The `out_n_bands` argument is not consulted. */
  function CheckAddFunction(src: Source, probe: FunInput, fun: Transform, kwargs: map<string, int>,
                            outNpDt: Option<string>, outNodata: NodataArg, spatial: bool): (r: Result<Registered>)
    requires ProbeOf(probe, src.return3d || spatial)
    ensures var result := fun(ProbeSlice(probe), kwargs);
      var name := DtypeName(outNpDt, result);
      && (r.Err? <==> InferNodata(outNodata, src.image.nodata, src.mask.Some?, name).Err?)
      && (r.Ok? ==> && r.value.bands == ProbeBands(result, src.return3d, spatial)
                    && r.value.dataType == NumpyToGdal(name)
                    && r.value.nodata == InferNodata(outNodata, src.image.nodata, src.mask.Some?, name).value)
  {
    var result := fun(ProbeSlice(probe), kwargs);
    var name := DtypeName(outNpDt, result);
    match InferNodata(outNodata, src.image.nodata, src.mask.Some?, name)
    case Err(err) => Err(err)
    case Ok(nodata) => Ok(Registered(ProbeBands(result, src.return3d, spatial), NumpyToGdal(name), nodata))
  }

  // ---------------------------------------------------------------------
  // The probe slice cuts bands

  /** The function that returns the block it is given. */
  function Identity(x: FunInput, kwargs: map<string, int>): Array {
    match x
    case Plain(a) => a
    case MaskedIn(m) => m.arr
  }

  /** As written, the identity function registered on a 2-D block of four
      bands is given three bands and so declared with three bands; every
      unmasked tile of four bands then stops the run. With the probe keeping
      all bands it is declared with four. */
  lemma ProbeCutsBands(a: Array, n: nat)
    requires a.shape == [n, 4] && n > 0
    ensures ProbeSliceAsWritten(Plain(a)).Plain?
    ensures ProbeBands(Identity(ProbeSliceAsWritten(Plain(a)), map[]), false, false) == 3
    ensures ProbeBands(Identity(ProbeSlice(Plain(a)), map[]), false, false) == 4
  {
    ReshapeNdimBands(ProbeSliceAsWritten(Plain(a)).a);
    ReshapeNdimBands(ProbeSlice(Plain(a)).a);
  }
}
