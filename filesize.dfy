/** `FormatFileSize`: which unit a byte count is shown in, at 1024 scaling. */
module FileSize {

  datatype Unit = KB | MB | GB

  /** The number of bytes in one unit. */
  function Factor(u: Unit): int
  {
    match u
    case KB => 1024
    case MB => 1024 * 1024
    case GB => 1024 * 1024 * 1024
  }

  /** A whole count of bytes, or a count of some unit (printed with two decimals). */
  datatype SizeText = WholeBytes(bytes: int) | Scaled(amount: real, unit: Unit)

  /**
   * Sizes below 1024 are shown in bytes, as they are; larger ones in the largest unit
   * that gives an amount of at least one, and the amount times the unit is the size.
   */
  function FormatFileSize(size: int): (t: SizeText)
    ensures t.WholeBytes? <==> size < 1024
    ensures t.WholeBytes? ==> t.bytes == size
    ensures t.Scaled? ==> t.amount * Factor(t.unit) as real == size as real
    ensures t.Scaled? ==> 1.0 <= t.amount && (t.unit != GB ==> t.amount < 1024.0)
  {
    if size >= Factor(GB) then Scaled(size as real / Factor(GB) as real, GB)
    else if size >= Factor(MB) then Scaled(size as real / Factor(MB) as real, MB)
    else if size >= Factor(KB) then Scaled(size as real / Factor(KB) as real, KB)
    else WholeBytes(size)
  }
}
