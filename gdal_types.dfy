/** Data-type helpers of museotoolbox.processing: choosing a GDAL integer type
    from a value range, the numpy-to-GDAL table of `convert_dt`, the GDAL-to-OTB
    names and the dtype minimums the engine uses as nodata values. */
module GdalTypes {
  import opened Outcomes

  // GDAL data-type codes (GDALDataType).
  const GDT_Byte: int := 1
  const GDT_UInt16: int := 2
  const GDT_Int16: int := 3
  const GDT_UInt32: int := 4
  const GDT_Int32: int := 5
  const GDT_Float32: int := 6
  const GDT_Float64: int := 7
  const GDT_CInt16: int := 8
  const GDT_CInt32: int := 9
  const GDT_CFloat32: int := 10
  const GDT_CFloat64: int := 11

  /** The closed range of values an integer GDAL type can hold. */
  function IntegerRange(code: int): (r: Option<(int, int)>)
    ensures r.Some? <==> code in {GDT_Byte, GDT_UInt16, GDT_Int16, GDT_UInt32, GDT_Int32}
    ensures r.Some? ==> r.value.0 <= 0 < r.value.1
  {
    if code == GDT_Byte then Some((0, 255))
    else if code == GDT_UInt16 then Some((0, 65535))
    else if code == GDT_Int16 then Some((-32768, 32767))
    else if code == GDT_UInt32 then Some((0, 4294967295))
    else if code == GDT_Int32 then Some((-2147483648, 2147483647))
    else None
  }

  /** True when the integer GDAL type `code` holds every value of [lo, hi]. */
  predicate Holds(code: int, lo: int, hi: int) {
    var r := IntegerRange(code);
    r.Some? && r.value.0 <= lo && hi <= r.value.1
  }

  // ---------------------------------------------------------------------
  // get_gdt_from_minmax_values, integer branch

  /** The integer branch as written: a non-negative minimum picks the
      unsigned type from the maximum, a negative minimum picks Int16 for any
      minimum above -65535 and ignores the maximum. */
  function GdtFromMinMaxAsWritten(maxValue: int, minValue: int): (code: int)
    ensures minValue >= 0 ==> code in {GDT_Byte, GDT_UInt16, GDT_UInt32}
    ensures minValue < 0 ==> code in {GDT_Int16, GDT_Int32}
    ensures minValue < 0 ==> (code == GDT_Int16 <==> minValue > -65535)
    ensures minValue >= 0 ==> (code == GDT_Byte <==> maxValue <= 255)
    ensures minValue >= 0 ==> (code == GDT_UInt16 <==> 255 < maxValue <= 65535)
  {
    if minValue >= 0 then
      if maxValue <= 255 then GDT_Byte
      else if maxValue <= 65535 then GDT_UInt16
      else GDT_UInt32
    else if minValue > -65535 then GDT_Int16
    else GDT_Int32
  }

  /** The range -40000..16 is classified as Int16, which cannot hold -40000;
      so is -1..100000, which cannot hold 100000. */
  lemma GdtFromMinMaxInt16Overflow()
    ensures GdtFromMinMaxAsWritten(16, -40000) == GDT_Int16 && !Holds(GDT_Int16, -40000, 16)
    ensures GdtFromMinMaxAsWritten(100000, -1) == GDT_Int16 && !Holds(GDT_Int16, -1, 100000)
  {
  }

  /** The integer branch with the signed thresholds of Int16 itself: the
      smallest listed type that holds both bounds (UInt32 / Int32 when nothing
      narrower does, as in the source). */
  function GdtFromMinMax(maxValue: int, minValue: int): (code: int)
    ensures minValue >= 0 ==> code in {GDT_Byte, GDT_UInt16, GDT_UInt32}
    ensures minValue < 0 ==> code in {GDT_Int16, GDT_Int32}
  {
    if minValue >= 0 then
      if maxValue <= 255 then GDT_Byte
      else if maxValue <= 65535 then GDT_UInt16
      else GDT_UInt32
    else if minValue >= -32768 && maxValue <= 32767 then GDT_Int16
    else GDT_Int32
  }

  /** The chosen type holds the whole range whenever some listed type of the
      same signedness does, and no narrower type of that signedness does. */
  lemma GdtFromMinMaxHoldsRange(maxValue: int, minValue: int)
    requires minValue <= maxValue
    ensures var code := GdtFromMinMax(maxValue, minValue);
      && (minValue >= 0 && maxValue <= 4294967295 ==> Holds(code, minValue, maxValue))
      && (minValue < 0 && minValue >= -2147483648 && maxValue <= 2147483647 ==> Holds(code, minValue, maxValue))
      && (code == GDT_UInt16 ==> !Holds(GDT_Byte, minValue, maxValue))
      && (code == GDT_UInt32 ==> !Holds(GDT_UInt16, minValue, maxValue))
      && (code == GDT_Int32 ==> !Holds(GDT_Int16, minValue, maxValue))
  {
  }

  /** The three examples of the docstring, for both versions. */
  lemma GdtFromMinMaxExamples()
    ensures GdtFromMinMaxAsWritten(260, 0) == 2 && GdtFromMinMax(260, 0) == 2
    ensures GdtFromMinMaxAsWritten(16, 0) == 1 && GdtFromMinMax(16, 0) == 1
    ensures GdtFromMinMaxAsWritten(16, -260) == 3 && GdtFromMinMax(16, -260) == 3
  {
  }

  // ---------------------------------------------------------------------
  // convert_dt, numpy name -> GDAL code

  /** The NP2GDAL_CONVERSION table of `convert_dt`. */
  const NumpyToGdalTable: map<string, int> := map[
    "uint8" := 1, "int8" := 3, "uint16" := 2, "int16" := 3,
    "uint32" := 4, "int32" := 5, "float32" := 6, "float64" := 7,
    "complex64" := 10, "complex128" := 11, "int64" := 5, "uint64" := 5]

  /** A numpy dtype name to its GDAL code; a name the table lacks becomes
      Float64. */
  function NumpyToGdal(name: string): (code: int)
    ensures name in NumpyToGdalTable ==> code == NumpyToGdalTable[name]
    ensures name !in NumpyToGdalTable ==> code == GDT_Float64
    ensures GDT_Byte <= code <= GDT_CFloat64 && code != GDT_CInt16 && code != GDT_CInt32
  {
    if name in NumpyToGdalTable then NumpyToGdalTable[name] else GDT_Float64
  }

  /** The range of a numpy integer dtype. */
  function NumpyIntegerRange(name: string): Option<(int, int)> {
    if name == "uint8" then Some((0, 255))
    else if name == "int8" then Some((-128, 127))
    else if name == "uint16" then Some((0, 65535))
    else if name == "int16" then Some((-32768, 32767))
    else if name == "uint32" then Some((0, 4294967295))
    else if name == "int32" then Some((-2147483648, 2147483647))
    else if name == "int64" then Some((-9223372036854775808, 9223372036854775807))
    else if name == "uint64" then Some((0, 18446744073709551615))
    else None
  }

  /** Every numpy integer dtype narrower than 64 bits maps to a GDAL integer
      type that holds all of its values; int64 and uint64 are narrowed to
      Int32, which loses values (the source warns about it). */
  lemma NumpyToGdalPreservesIntegers(name: string)
    requires NumpyIntegerRange(name).Some?
    ensures var (lo, hi) := NumpyIntegerRange(name).value;
      if name == "int64" || name == "uint64" then
        NumpyToGdal(name) == GDT_Int32 && !Holds(GDT_Int32, lo, hi)
      else
        Holds(NumpyToGdal(name), lo, hi)
  {
  }

  // ---------------------------------------------------------------------
  // _convert_gdal_to_otb_dt

  const OtbNames: seq<string> := [
    "uint8", "uint8", "uint16", "int16", "uint32", "int32",
    "float", "double", "cint16", "cint32", "cfloat", "cdouble"]

  /** As written: codes above the table length are 'cdouble', everything
      else indexes the table the Python way, so code 12 (the table length)
      raises IndexError and negative codes count from the end. */
  function GdalToOtbAsWritten(dt: int): (r: Result<string>)
    ensures r.Err? <==> dt == |OtbNames| || dt < -|OtbNames|
    ensures 0 <= dt < |OtbNames| ==> r == Ok(OtbNames[dt])
    ensures dt > |OtbNames| ==> r == Ok("cdouble")
  {
    if dt > |OtbNames| then Ok("cdouble") else PyIndex(OtbNames, dt)
  }

  lemma GdalToOtbAtTableLength()
    ensures GdalToOtbAsWritten(12).Err?
  {
  }

  /** Codes past the end of the table are 'cdouble', as evidently intended. */
  function GdalToOtb(dt: int): (r: Result<string>)
    ensures r.Err? <==> dt < -|OtbNames|
    ensures 0 <= dt < |OtbNames| ==> r == Ok(OtbNames[dt])
    ensures dt >= |OtbNames| ==> r == Ok("cdouble")
  {
    if dt >= |OtbNames| then Ok("cdouble") else PyIndex(OtbNames, dt)
  }

  /** The docstring examples, which hold for both versions. */
  lemma GdalToOtbExamples()
    ensures GdalToOtb(GDT_Float32) == Ok("float") && GdalToOtbAsWritten(GDT_Float32) == Ok("float")
    ensures GdalToOtb(GDT_Byte) == Ok("uint8") && GdalToOtbAsWritten(GDT_Byte) == Ok("uint8")
    ensures GdalToOtb(GDT_UInt32) == Ok("uint32") && GdalToOtbAsWritten(GDT_UInt32) == Ok("uint32")
    ensures GdalToOtb(GDT_CFloat64) == Ok("cdouble") && GdalToOtbAsWritten(GDT_CFloat64) == Ok("cdouble")
  {
  }

  /** `convert_dt(name, to_otb_dt=True)` for a numpy name: the GDAL code of
      the name, then its OTB name. */
  function ConvertDtToOtb(name: string): (r: Result<string>)
    ensures r.Ok? && r == GdalToOtbAsWritten(NumpyToGdal(name))
    ensures name !in NumpyToGdalTable ==> r == Ok("double")
  {
    GdalToOtb(NumpyToGdal(name))
  }

  // ---------------------------------------------------------------------
  // np.iinfo(dtype).min / np.finfo(dtype).min

  const Float16Min: int := -65504
  /** -max of IEEE binary32, 2^128 - 2^104. */
  const Float32Min: int := -340282346638528859811704183484516925440
  /** -max of IEEE binary64, 2^1024 - 2^971. */
  const Float64Min: int := -179769313486231570814527423731704356798070567525844996598917476803157260780028538760589558632766878171540458953514382464234321326889464182768467546703537516986049910576551282076245490090389328944075868508455133942304583236903222948165808559332123348274797826204144723168738177180919299881250404026184124858368

  /** The minimum value of a numpy dtype, used as nodata; None where numpy
      raises (bool, complex and names it does not know). The float minimums
      are -max of the format, which are integers. */
  function DtypeMin(name: string): (m: Option<int>)
    ensures NumpyIntegerRange(name).Some? ==> m == Some(NumpyIntegerRange(name).value.0)
    ensures m.Some? ==> m.value <= 0
  {
    if NumpyIntegerRange(name).Some? then Some(NumpyIntegerRange(name).value.0)
    else if name == "float16" then Some(Float16Min)
    else if name == "float32" then Some(Float32Min)
    else if name == "float64" then Some(Float64Min)
    else None
  }
}
