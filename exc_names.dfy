/** The diagnostic names of the 32 MIPS32 exception cause codes (`exctable`). */
module ExcNames {
  import opened Wrappers

  /** Entry n names cause code n; None stands for a NULL entry. */
  const EXC_NAMES: seq<Option<string>> := [
    Some("Interrupt"),
    Some("TLB Modified"),
    Some("TLB Invalid"),
    Some("TLB Invalid Store"),
    Some("Address Error - load/instr. fetch"),
    Some("Address Error - store"),
    Some("Bus Error - fetch instruction"),
    Some("Bus Error - data reference"),
    Some("Syscall"),
    Some("BreakPoint"),
    Some("Reserved Instruction"),
    Some("Coprocessor Unusable"),
    Some("Arithmetic Overflow"),
    Some("Trap"),
    Some("Virtual Coherency - instruction"),
    Some("Floating Point"),
    None, None, None, None, None, None, None,
    Some("WatchHi/WatchLo"),
    None, None, None, None, None, None, None,
    Some("Virtual Coherency - data")
  ]

  /** The number of entries in the name table. */
  const EXC_NAMES_COUNT := 32

  /**
   * The name of cause code n. Codes 0 to 15, 23 and 31 are named; the others
   * are NULL entries.
   */
  function ExcName(n: nat): (r: Option<string>)
    requires n < EXC_NAMES_COUNT
    ensures |EXC_NAMES| == EXC_NAMES_COUNT
    ensures r.Some? <==> n < 16 || n == 23 || n == 31
  {
    EXC_NAMES[n]
  }
}
