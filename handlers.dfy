/**
 * The per-cause exception handlers of the MIPS32 port. Each either rewrites
 * the trap frame and resumes, or escalates; the escalation is returned as an
 * Outcome instead of being performed by a call that does not return.
 */
module Handlers {
  import opened Wrappers
  import opened TrapFrame
  import opened ExcNames

  /** The build configuration: CONFIG_DEBUG and CONFIG_FPU_LAZY. */
  datatype Config = Config(debug: bool, fpuLazy: bool)

  /**
   * A diagnostic message as handed to a printf-style collaborator: the format
   * and the string arguments for its `%s` conversions (None is a NULL pointer).
   */
  datatype Message = Message(format: string, args: seq<Option<string>>)

  /** The collaborators a handler can hand the trap over to. */
  datatype Collaborator =
    | TlbModified      // tlb_modified
    | TlbInvalid       // tlb_invalid
    | Debugger         // debugger_bpoint
    | LazyFpu          // scheduler_fpu_lazy_request

  /** How a handler finishes the trap. */
  datatype Outcome =
    | Resume                        // return to the trampoline, which restores the frame
    | UserFault(msg: Message)       // fault_if_from_uspace kills the offending task
    | Panic(n: nat, msg: Message)   // panic_badtrap halts the kernel
    | Delegated(to: Collaborator)   // the trap is handed to a collaborator

  /** `RDHWR $3, $29`: read the user-local hardware register into v1. */
  const RDHWR_V1_ULR: Word := 0x7c03e83b

  function UnhandledMessage(n: nat): Message
    requires n < EXC_NAMES_COUNT
  {
    Message("Unhandled exception %s.", [ExcName(n)])
  }

  const CPUNS_MESSAGE := Message("Unhandled Coprocessor Unusable Exception.", [])

  const SYSCALL_MESSAGE := Message("Syscall is handled through shortcut.", [])

  /**
   * `unhandled_exception`: never resumes. A trap from user space faults the
   * task with a message naming the exception; a trap from the kernel panics
   * with the cause code and the same message.
   */
  function UnhandledException(n: nat, istate: IState, fromUspace: Frame -> bool): (out: Outcome)
    reads istate
    requires n < EXC_NAMES_COUNT
    ensures out != Resume && !out.Delegated?
    ensures out.UserFault? <==> fromUspace(istate.View())
    ensures out.UserFault? ==> out.msg == Message("Unhandled exception %s.", [EXC_NAMES[n]])
    ensures out.Panic? ==> out.n == n && out.msg == Message("Unhandled exception %s.", [EXC_NAMES[n]])
  {
    if fromUspace(istate.View()) then UserFault(UnhandledMessage(n))
    else Panic(n, UnhandledMessage(n))
  }

  /**
   * `reserved_instr_exception`: the word at epc is either the RDHWR shortcut,
   * which is emulated by copying k1 into v1 and stepping over the
   * instruction, or anything else, which is handled as unhandled_exception.
   */
  method ReservedInstrException(n: nat, istate: IState, word: Word -> Word, thread: bool,
                                fromUspace: Frame -> bool) returns (out: Outcome)
    requires word(istate.epc) == RDHWR_V1_ULR ==> thread
    requires word(istate.epc) != RDHWR_V1_ULR ==> n < EXC_NAMES_COUNT
    modifies istate`epc, istate`v1
    ensures word(old(istate.epc)) == RDHWR_V1_ULR ==>
      out == Resume &&
      istate.View() == old(istate.View()).(epc := NextPc(old(istate.epc)), v1 := old(istate.k1))
    ensures word(old(istate.epc)) != RDHWR_V1_ULR ==>
      istate.View() == old(istate.View()) &&
      out == UnhandledException(n, istate, fromUspace)
  {
    if word(istate.epc) == RDHWR_V1_ULR {
      istate.epc := NextPc(istate.epc);
      istate.v1 := istate.k1;
      out := Resume;
    } else {
      out := UnhandledException(n, istate, fromUspace);
    }
  }

  /**
   * `breakpoint_exception`: with CONFIG_DEBUG the frame goes to the debugger
   * untouched; without it epc steps over the BREAK instruction so that it is
   * not executed again, and nothing else changes.
   */
  method BreakpointException(n: nat, istate: IState, cfg: Config) returns (out: Outcome)
    modifies istate`epc
    ensures cfg.debug ==> out == Delegated(Debugger) && istate.View() == old(istate.View())
    ensures !cfg.debug ==>
      out == Resume && istate.View() == old(istate.View()).(epc := NextPc(old(istate.epc)))
  {
    if cfg.debug {
      out := Delegated(Debugger);
    } else {
      istate.epc := NextPc(istate.epc);
      out := Resume;
    }
  }

  /** `tlbmod_exception`: hands the frame to the TLB-modified resolver. */
  function TlbmodException(n: nat, istate: IState): (out: Outcome)
    ensures out == Delegated(TlbModified)
  {
    Delegated(TlbModified)
  }

  /** `tlbinv_exception`: hands the frame to the TLB-invalid resolver, for loads and stores alike. */
  function TlbinvException(n: nat, istate: IState): (out: Outcome)
    ensures out == Delegated(TlbInvalid)
  {
    Delegated(TlbInvalid)
  }

  /**
   * The CE field (bits 29:28) of the CP0 Cause register: the number of the
   * coprocessor whose use raised a Coprocessor Unusable exception.
   */
  function CauseCoperr(cause: bv32): (ce: bv32)
    ensures ce < 4 && cause & 0x3000_0000 == ce << 28
  {
    (cause >> 28) & 0x3
  }

  /**
   * `cpuns_exception` (built with CONFIG_FPU_LAZY): a trap on the FPU asks the
   * scheduler for the lazy FPU context switch and leaves the frame alone; a
   * trap on any other coprocessor escalates like an unhandled exception.
   */
  function CpunsException(n: nat, istate: IState, cause: bv32, fpuCopId: bv32,
                          fromUspace: Frame -> bool): (out: Outcome)
    reads istate
    ensures out == Delegated(LazyFpu) <==> CauseCoperr(cause) == fpuCopId
    ensures CauseCoperr(cause) != fpuCopId ==>
      (fromUspace(istate.View()) ==> out == UserFault(CPUNS_MESSAGE)) &&
      (!fromUspace(istate.View()) ==> out == Panic(n, CPUNS_MESSAGE))
  {
    if CauseCoperr(cause) == fpuCopId then Delegated(LazyFpu)
    else if fromUspace(istate.View()) then UserFault(CPUNS_MESSAGE)
    else Panic(n, CPUNS_MESSAGE)
  }

  /**
   * `syscall_exception`: syscalls enter through the shortcut, so one taken
   * through this slow path faults a user task; from the kernel it returns
   * and the trap resumes with the frame as it was.
   */
  function SyscallException(n: nat, istate: IState, fromUspace: Frame -> bool): (out: Outcome)
    reads istate
    ensures out != Resume <==> fromUspace(istate.View())
    ensures out != Resume ==> out == UserFault(SYSCALL_MESSAGE)
  {
    if fromUspace(istate.View()) then UserFault(SYSCALL_MESSAGE) else Resume
  }
}
