/** The two unit-format enumerations a drawing passes through when it is
    read from or written to DXF: the drawing's own, which knows only
    architectural and metric units, and the DXF header's, which names seven
    display styles. A C# enum variable can hold any value of its underlying
    integer type, so each datatype has a case for a value outside the named
    members. */
module DxfUnits {
  import opened Wrappers

  datatype UnitFormat =
    | Architectural
    | Metric
    | UnnamedUnitFormat(code: int)

  datatype DxfUnitFormat =
    | Scientific
    | Decimal
    | Engineering
    | DxfArchitectural
    | Fractional
    | ArchitecturalStacked
    | FractionalStacked
    | UnnamedDxfUnitFormat(code: int)

  const Unsupported: Exception := ArgumentException("Unsupported unit format")

  /** The DXF style a drawing's unit format is written as. Writing succeeds
      exactly for the two named formats, and reading the written style gives
      the format back. */
  function ToDxfUnitFormat(format: UnitFormat): (r: Result<DxfUnitFormat>)
    ensures r.Success? <==> !format.UnnamedUnitFormat?
    ensures r.Failure? ==> r.error == Unsupported
    ensures r.Success? ==> ToUnitFormat(r.value) == Success(format)
  {
    match format
    case Architectural => Success(DxfArchitectural)
    case Metric => Success(Decimal)
    case UnnamedUnitFormat(_) => Failure(Unsupported)
  }

  /** The drawing unit format a DXF style is read as: the fractional-inch
      styles are architectural, the decimal ones metric, and no other value
      reads. */
  function ToUnitFormat(format: DxfUnitFormat): (r: Result<UnitFormat>)
    ensures r == Success(Architectural) <==> ShowsFractions(format)
    ensures r == Success(Metric) <==> ShowsDecimals(format)
    ensures r.Failure? ==> r.error == Unsupported
  {
    match format
    case DxfArchitectural | ArchitecturalStacked | Fractional | FractionalStacked => Success(Architectural)
    case Decimal | Engineering | Scientific => Success(Metric)
    case UnnamedDxfUnitFormat(_) => Failure(Unsupported)
  }

  /** The styles that show lengths as feet, inches and fractions. */
  predicate ShowsFractions(format: DxfUnitFormat) {
    format in {DxfArchitectural, ArchitecturalStacked, Fractional, FractionalStacked}
  }

  /** The styles that show lengths as decimal numbers. */
  predicate ShowsDecimals(format: DxfUnitFormat) {
    format in {Scientific, Decimal, Engineering}
  }

  /** Reading a DXF style and writing it back lands on a style that reads
      the same: DXF to drawing and back is a normalisation, and a second
      trip changes nothing more. */
  lemma DxfUnitFormatNormalises(format: DxfUnitFormat)
    requires ToUnitFormat(format).Success?
    ensures var written := ToDxfUnitFormat(ToUnitFormat(format).value);
      written.Success? && ToUnitFormat(written.value) == ToUnitFormat(format) &&
      ToDxfUnitFormat(ToUnitFormat(written.value).value) == written
    ensures var written := ToDxfUnitFormat(ToUnitFormat(format).value);
      written.Success? && (written.value == format <==> format == DxfArchitectural || format == Decimal)
  {
  }
}
