/**
 * The exception vector table: one slot per cause code, holding the name,
 * the "hot" flag and the handler routine registered for that code.
 */
module Vectors {

  /** The routines of the MIPS32 exception layer that a slot can point to. */
  datatype HandlerKind =
    | NoHandler        // the zero-initialised pointer, before any registration
    | Unhandled        // unhandled_exception
    | Breakpoint       // breakpoint_exception
    | ReservedInstr    // reserved_instr_exception
    | TlbMod           // tlbmod_exception
    | TlbInv           // tlbinv_exception
    | CpuUnusable      // cpuns_exception
    | Interrupt        // interrupt_exception
    | Syscall          // syscall_exception

  datatype Slot = Slot(name: string, hot: bool, handler: HandlerKind)

  /** The contents of a slot before the table is populated. */
  const EMPTY_SLOT := Slot("", false, NoHandler)

  /** The handler table of `IVT_ITEMS` slots, updated in place by registration. */
  class ExcTable {
    const slots: array<Slot>

    constructor (ivtItems: nat)
      ensures slots.Length == ivtItems && fresh(slots)
      ensures forall i :: 0 <= i < ivtItems ==> slots[i] == EMPTY_SLOT
    {
      slots := new Slot[ivtItems](_ => EMPTY_SLOT);
    }

    /**
     * `exc_register`: stores the slot for cause code n and leaves every other
     * slot as it was. An out-of-range code is a caller error.
     */
    method Register(n: nat, name: string, hot: bool, handler: HandlerKind)
      requires n < slots.Length
      modifies slots
      ensures slots[..] == old(slots[..])[n := Slot(name, hot, handler)]
    {
      slots[n] := Slot(name, hot, handler);
    }
  }
}
