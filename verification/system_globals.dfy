/** Byte sizes with a unit (SystemGlobals.cs). The decimal quotient is an exact
    `real`; `Math.Round` and the rendering of the number into text are not part
    of this model, so a formatted size keeps the quotient, the requested number
    of decimals and the unit. */
module SystemGlobals {

  /** The C# `long` of the memory readings. */
  newtype int64 = x: int | -0x8000_0000_0000_0000 <= x < 0x8000_0000_0000_0000

  const GigaBytesDivider: int := 1024 * 1024 * 1024
  const MegaBytesDivider: int := 1024 * 1024
  const KiloBytesDivider: int := 1024

  /** `Math.Round(decimal, int)` accepts 0 to 28 decimals and throws
      `ArgumentOutOfRangeException` for any other count. */
  const MaxRoundingDecimals: int := 28

  datatype ByteUnit = KiloBytes | MegaBytes | GigaBytes

  /** A formatted size: `Math.Round(quotient, allowedDecimals)` followed by the
      unit, or the value itself followed by " bytes". */
  datatype FormattedSize =
    | Scaled(quotient: real, allowedDecimals: int, unit: ByteUnit)
    | Unscaled(bytes: int)

  function Divider(unit: ByteUnit): (divider: int)
  {
    match unit
    case KiloBytes => KiloBytesDivider
    case MegaBytes => MegaBytesDivider
    case GigaBytes => GigaBytesDivider
  }

  /** The text that follows the number. */
  function Suffix(size: FormattedSize): (suffix: string)
  {
    match size
    case Unscaled(_) => " bytes"
    case Scaled(_, _, KiloBytes) => " kB"
    case Scaled(_, _, MegaBytes) => " MB"
    case Scaled(_, _, GigaBytes) => " GB"
  }

  /** The decimal overload: the largest unit whose divider the value strictly
      exceeds; a value of at most 1024 (zero and negatives too) stays in bytes.
      Each unit covers (divider, 1024 * divider], except GB, which has no upper end;
      the quotient times the divider gives back the value. Only a scaled size is
      rounded, so only then must the decimals be a count `Math.Round` accepts. */
  function GetValueWithUnitByteSizeDecimal(value: int, allowedDecimals: int): (r: FormattedSize)
    requires value > KiloBytesDivider ==> 0 <= allowedDecimals <= MaxRoundingDecimals
    ensures r.Unscaled? <==> value <= KiloBytesDivider
    ensures r.Unscaled? ==> r.bytes == value
    ensures r.Scaled? ==> r.allowedDecimals == allowedDecimals
    ensures r.Scaled? ==> r.quotient * Divider(r.unit) as real == value as real
    ensures r.Scaled? ==> Divider(r.unit) < value
    ensures r.Scaled? && r.unit != GigaBytes ==> value <= 1024 * Divider(r.unit)
  {
    if value > GigaBytesDivider then Scaled(value as real / GigaBytesDivider as real, allowedDecimals, GigaBytes)
    else if value > MegaBytesDivider then Scaled(value as real / MegaBytesDivider as real, allowedDecimals, MegaBytes)
    else if value > KiloBytesDivider then Scaled(value as real / KiloBytesDivider as real, allowedDecimals, KiloBytes)
    else Unscaled(value)
  }

  /** The public `long` overload: converts to decimal and delegates, with two
      decimals unless the caller asks otherwise. */
  function GetValueWithUnitByteSize(value: int64, allowedDecimals: int := 2): (r: FormattedSize)
    requires value as int > KiloBytesDivider ==> 0 <= allowedDecimals <= MaxRoundingDecimals
    ensures r.Unscaled? <==> value as int <= KiloBytesDivider
    ensures r.Unscaled? ==> r.bytes == value as int
    ensures r.Scaled? ==> r.allowedDecimals == allowedDecimals
    ensures r.Scaled? ==> Divider(r.unit) < value as int
    ensures r.Scaled? && r.unit != GigaBytes ==> value as int <= 1024 * Divider(r.unit)
  {
    GetValueWithUnitByteSizeDecimal(value as int, allowedDecimals)
  }

  /** The `long` overload's quotient times its unit's divider gives back the value. */
  lemma LongOverloadQuotientRoundTrips(value: int64, allowedDecimals: int)
    requires value as int > KiloBytesDivider ==> 0 <= allowedDecimals <= MaxRoundingDecimals
    ensures var r := GetValueWithUnitByteSize(value, allowedDecimals);
            r.Scaled? ==> r.quotient * Divider(r.unit) as real == value as real
  {
  }

  /** Called with the value alone, the `long` overload rounds a scaled size to two
      decimals; the largest `long` is scaled to GB. */
  lemma OneArgumentOverloadUsesTwoDecimals(value: int64)
    ensures GetValueWithUnitByteSize(value).Scaled? ==> GetValueWithUnitByteSize(value).allowedDecimals == 2
    ensures value as int > KiloBytesDivider ==> GetValueWithUnitByteSize(value).allowedDecimals == 2
    ensures GetValueWithUnitByteSize(0x7FFF_FFFF_FFFF_FFFF).unit == GigaBytes
  {
  }

  /** The unit a value receives is unique: it is the only one whose range
      (divider, 1024 * divider] (unbounded above for GB) holds the value. */
  lemma UnitIsUnique(value: int, unit: ByteUnit)
    requires Divider(unit) < value
    requires unit != GigaBytes ==> value <= 1024 * Divider(unit)
    ensures GetValueWithUnitByteSizeDecimal(value, 2) == Scaled(value as real / Divider(unit) as real, 2, unit)
  {
  }

  /** Before rounding, a kB or MB quotient lies in (1, 1024] and a GB quotient
      exceeds 1. */
  lemma QuotientBounds(value: int, allowedDecimals: int)
    requires value > KiloBytesDivider
    requires 0 <= allowedDecimals <= MaxRoundingDecimals
    ensures GetValueWithUnitByteSizeDecimal(value, allowedDecimals).quotient > 1.0
    ensures GetValueWithUnitByteSizeDecimal(value, allowedDecimals).unit != GigaBytes ==>
              GetValueWithUnitByteSizeDecimal(value, allowedDecimals).quotient <= 1024.0
  {
  }

  /** Values exactly at a divider fall to the lower unit. */
  lemma DividerBoundaries()
    ensures GetValueWithUnitByteSizeDecimal(1024, 2) == Unscaled(1024)
    ensures GetValueWithUnitByteSizeDecimal(1025, 2).unit == KiloBytes
    ensures GetValueWithUnitByteSizeDecimal(1048576, 2) == Scaled(1024.0, 2, KiloBytes)
    ensures GetValueWithUnitByteSizeDecimal(1048577, 2).unit == MegaBytes
    ensures GetValueWithUnitByteSizeDecimal(1073741824, 2) == Scaled(1024.0, 2, MegaBytes)
    ensures GetValueWithUnitByteSizeDecimal(1073741825, 2).unit == GigaBytes
    ensures GetValueWithUnitByteSizeDecimal(0, 2) == Unscaled(0)
    ensures GetValueWithUnitByteSizeDecimal(-5000, 2) == Unscaled(-5000)
  {
  }
}
