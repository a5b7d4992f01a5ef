/**
 * The storage configuration record and the Java `long` arithmetic the
 * service performs on it when it builds its validator.
 */
module StorageConfig {

  const MIN_LONG: int := -0x8000_0000_0000_0000
  const MAX_LONG: int := 0x7FFF_FFFF_FFFF_FFFF

  /** A value of Java's 64-bit `long`. */
  type Long = x: int | MIN_LONG <= x <= MAX_LONG

  /** Bytes in a mebibyte, the `1024 * 1024` of the source. */
  const MIB: int := 1024 * 1024

  /** Two's-complement wrap-around of a mathematical integer into a `long`. */
  function WrapLong(x: int): (r: Long)
    ensures (r - x) % 0x1_0000_0000_0000_0000 == 0
    ensures MIN_LONG <= x <= MAX_LONG ==> r == x
  {
    (x - MIN_LONG) % 0x1_0000_0000_0000_0000 + MIN_LONG
  }

  /** Java's `long` division by a positive divisor: truncates toward zero. */
  function TruncDiv(a: int, b: int): int
    requires b > 0
  {
    if a >= 0 then a / b else -((-a) / b)
  }

  /**
   * TruncDiv is Java's division: the remainder it leaves is smaller than the
   * divisor in magnitude and has the sign of the dividend, so the quotient is
   * rounded toward zero.
   */
  lemma TruncDivTruncates(a: int, b: int)
    requires b > 0
    ensures var rem := a - TruncDiv(a, b) * b;
      && -b < rem < b
      && (0 <= a ==> 0 <= rem)
      && (a < 0 ==> rem <= 0)
  {
    if a < 0 {
      assert -a == ((-a) / b) * b + (-a) % b;
    }
  }

  /** The `storage.*` configuration properties. */
  datatype StorageProperties = StorageProperties(
    allowedMimeTypes: set<string>,
    allowedExtensions: set<string>,
    maxFileSizeMb: Long,
    allowDuplicateFiles: bool)

  /** The values the properties take when the configuration sets none. */
  const DEFAULT_PROPERTIES: StorageProperties := StorageProperties(
    {"image/jpeg", "image/png", "application/pdf"},
    {"jpg", "jpeg", "png", "pdf"},
    50,
    false)

  /** `maxFileSizeMb * 1024 * 1024` evaluated left to right in `long` arithmetic. */
  function MaxFileSizeBytes(mb: Long): (r: Long)
    ensures MIN_LONG <= mb * 1048576 <= MAX_LONG ==> r == mb * MIB
  {
    WrapLong(WrapLong(mb * 1024) * 1024)
  }

  /** With the default configuration the limit is 50 MiB. */
  lemma DefaultLimit()
    ensures MaxFileSizeBytes(DEFAULT_PROPERTIES.maxFileSizeMb) == 52_428_800
  {
  }

  /** A limit of 2^53 MiB overflows `long` and wraps to a limit of zero bytes. */
  lemma HugeLimitWrapsToZero()
    ensures MaxFileSizeBytes(0x20_0000_0000_0000) == 0
  {
  }
}
