# MIPS32 exception dispatch, modelled in Dafny

This project models the exception layer of the MIPS32 port of the HelenOS
kernel, `kernel/arch/mips32/src/exception.c`:

- the diagnostic name table `exctable` of the 32 cause codes;
- the exception vector table that `exception_init` populates through
  `exc_register`;
- the saved trap frame `istate_t`, which handlers rewrite in place;
- the per-cause handlers `unhandled_exception`, `reserved_instr_exception`
  (RDHWR emulation), `breakpoint_exception`, `tlbmod_exception`,
  `tlbinv_exception`, `cpuns_exception` and `syscall_exception`;
- `interrupt_exception`, which fans one interrupt trap out to the handlers
  of the pending IRQ lines.

Files and modules:

| file | module | contents |
|---|---|---|
| wrappers.dfy | Wrappers | `Option`, used for NULL-able pointers |
| trap_frame.dfy | TrapFrame | the 32-bit `Word`, class `IState` (one field per saved register), its value view `Frame`, `NextPc` |
| exc_names.dfy | ExcNames | `EXC_NAMES` (`exctable`) and `ExcName` |
| vectors.dfy | Vectors | `HandlerKind`, `Slot`, class `ExcTable` with `Register` (`exc_register`) |
| handlers.dfy | Handlers | `Config`, `Outcome`, the per-cause handlers |
| irq_fanout.dfy | IrqFanOut | `InterruptException`, its event trace and the lemmas about it |
| exception_init.dfy | ExceptionInit | `CauseCodes`, `InitialTable`, `ExceptionInit` |

How the C code is represented:

- **Escalation.** `fault_if_from_uspace` and `panic_badtrap` do not return
  when they escalate. Here a handler returns an `Outcome`: `Resume`,
  `UserFault(msg)`, `Panic(n, msg)` or `Delegated(collaborator)`.
- **Messages.** A message is kept as `Message(format, args)`, the format
  string and its `%s` arguments. A NULL `exctable` entry is `None`.
- **User or kernel.** Whether a frame comes from user space is an abstract
  predicate `fromUspace: Frame -> bool`.
- **Frame updates.** Frame-changing handlers are methods with
  field-granular `modifies` clauses, for example `modifies istate`epc, istate`v1`.
  Their postconditions give the whole new `View()` of the frame in terms of
  the old one.
- **Registers.** Frame registers are 32-bit words. `epc + 4` wraps modulo
  2^32 (`NextPc`).
- **Instruction fetch and THREAD.** The load `*((uint32_t *) istate->epc)`
  is an instruction-memory function `word`. `ASSERT(THREAD)` is the
  precondition "`thread` holds when the word is the RDHWR shortcut".
- **Build configuration.** `CONFIG_DEBUG` and `CONFIG_FPU_LAZY` are a
  `Config` value, so both builds are proved.
- **Architecture constants.** The cause codes `EXC_*` and `IVT_ITEMS` come
  from architecture headers that are not part of this model. They are a
  `CauseCodes` parameter. It is required to be well formed: the codes are
  distinct, each is below `IVT_ITEMS`, and `IVT_ITEMS` is at most 32, so
  every slot has an `exctable` entry.
- **MIPS32 values.** `MIPS32_CODES` gives Int=0, Mod=1, TLBL=2, TLBS=3,
  Sys=8, Bp=9, RI=10, CpU=11, the `exctable` positions of their names, and
  IVT_ITEMS=32, the size of the name table.
- **Coprocessor number.** `cp0_cause_read()` is the input `cause`.
  `cp0_cause_coperr` decodes the CE field, bits 29:28 of the CP0 Cause
  register (MIPS32 Architecture for Programmers, Volume III, Cause
  Register). `fpu_cop_id` is the parameter `fpuCopId`.
- **Interrupt fan-out.** The IRQ registry is a map from line to
  `Option<descriptor>`, with descriptors of an abstract type `D`. The
  fan-out returns the trace of calls it makes: `Lookup(line, found)` for
  `irq_dispatch_and_lock`, `Handle(line, irq)` for `irq->handler(irq)`,
  and `Unlock(line, irq)` for `irq_spinlock_unlock`. It also returns the
  ghost set of lines whose descriptor lock is held. The lemmas about the
  trace state the fan-out's guarantees.

Two behaviours of the code worth stating outright:

- **Slow-path syscall.** `syscall_exception` escalates only a user-space
  frame; a kernel frame returns with the frame unchanged.
- **Breakpoints.** Breakpoint handling is chosen at build time by
  `CONFIG_DEBUG`: with it the frame goes to the debugger, without it epc
  steps over the BREAK instruction.

## Model

| member | source | states |
|---|---|---|
| ExcNames.ExcName | kernel/arch/mips32/src/exception.c:51-72 | the name table has 32 entries; entry n is non-NULL exactly for n < 16, n = 23 and n = 31 |
| ExceptionInit.Mips32CodesMatchNames | kernel/arch/mips32/src/exception.c:51-72 | the MIPS32 cause codes are distinct table slots, and each names its exception in `exctable` (Int is "Interrupt", RI is "Reserved Instruction", and so on) |
| Vectors.ExcTable.Register | kernel/arch/mips32/src/exception.c:179-181 | registering code n (n below the table size) stores (name, hot, handler) in slot n and leaves every other slot unchanged |
| ExceptionInit.InitialTable | kernel/arch/mips32/src/exception.c:174-203 | after initialisation every slot holds a handler; Bp, RI, Mod, TLBL and TLBS (both "tlbinvl", same handler), Int and Sys hold their handlers, marked hot; CpU holds cpuns_exception only with CONFIG_FPU_LAZY and is otherwise "undef"; every other slot is ("undef", not hot, unhandled_exception); a slot is hot exactly when it is explicitly registered |
| ExceptionInit.Registrations | kernel/arch/mips32/src/exception.c:179-202 | the registrations of exception_init, applied in source order to an all-"undef" table, keep the table at IVT_ITEMS slots |
| ExceptionInit.RegistrationsGiveInitialTable | kernel/arch/mips32/src/exception.c:183-202 | with distinct cause codes, the registrations applied in source order give exactly that table: no registration overwrites another |
| ExceptionInit.ExceptionInit | kernel/arch/mips32/src/exception.c:174-203 | filling every slot with "undef" and then registering the handlers leaves the table equal to InitialTable |
| TrapFrame.NextPc | kernel/arch/mips32/src/exception.c:98 | the next instruction address is epc + 4 when that fits in 32 bits, and wraps past 2^32 otherwise |
| Handlers.UnhandledException | kernel/arch/mips32/src/exception.c:88-92 | never resumes or delegates; it gives a user fault exactly when the frame is from user space, otherwise a panic carrying code n; both carry "Unhandled exception %s." with exctable[n] |
| Handlers.ReservedInstrException | kernel/arch/mips32/src/exception.c:94-102 | if the word at epc is 0x7c03e83b (RDHWR $3, $29; a current thread is required), epc becomes epc + 4 and v1 becomes k1 with every other register unchanged, and the trap resumes; for any other word the frame is untouched and the outcome is exactly that of unhandled_exception |
| Handlers.BreakpointException | kernel/arch/mips32/src/exception.c:104-114 | with CONFIG_DEBUG the frame is unchanged and handed to the debugger; without it epc becomes epc + 4, nothing else changes, and the trap resumes |
| Handlers.TlbmodException | kernel/arch/mips32/src/exception.c:116-119 | the trap is handed to the TLB-modified resolver |
| Handlers.TlbinvException | kernel/arch/mips32/src/exception.c:121-124 | the trap is handed to the TLB-invalid resolver |
| Handlers.CauseCoperr | kernel/arch/mips32/src/exception.c:129 | the coprocessor number is below 4 and is read from bits 29:28 of Cause alone |
| Handlers.CpunsException | kernel/arch/mips32/src/exception.c:126-138 | the outcome is one lazy-FPU request exactly when the CE field names the FPU; otherwise a user-space frame gets a user fault and a kernel frame a panic with code n, both with "Unhandled Coprocessor Unusable Exception." |
| Handlers.SyscallException | kernel/arch/mips32/src/exception.c:168-172 | a user-space frame gets a user fault "Syscall is handled through shortcut."; a kernel frame resumes |
| IrqFanOut.IpField | kernel/arch/mips32/src/exception.c:143 | the pending-line field is an 8-bit value |
| IrqFanOut.PendingIsCauseBit | kernel/arch/mips32/src/exception.c:143-147 | line i (i < 8) is pending exactly when bit 8 + i of Cause is set |
| IrqFanOut.FanOutReadsOnlyIp | kernel/arch/mips32/src/exception.c:143 | two Cause values that agree on bits 15:8 give the same fan-out |
| IrqFanOut.InterruptException | kernel/arch/mips32/src/exception.c:140-166 | the loop makes exactly the calls FanOut prescribes, always resumes, keeps the lock discipline over its whole trace, and leaves no IRQ lock held |
| IrqFanOut.LookupAndHandleOncePerLine | kernel/arch/mips32/src/exception.c:146-153 | line i is looked up exactly once if it is one of lines 0..7 and its bit is set, and never otherwise; its handler is called exactly once if in addition the lookup found a descriptor, and never otherwise |
| IrqFanOut.LinesAscending | kernel/arch/mips32/src/exception.c:146-148 | the calls concern only lines 0..7, in non-decreasing order of line |
| IrqFanOut.HandlersBracketed | kernel/arch/mips32/src/exception.c:148-154 | every handler call is on the descriptor registered for its line; it comes directly after the lookup that returned that descriptor and directly before the unlock of that descriptor |
| IrqFanOut.LocksReleased | kernel/arch/mips32/src/exception.c:148-163 | replaying the trace against the lock set succeeds: each line is examined with no lock held, each handler runs holding exactly its line's lock, only held locks are released, a spurious line takes and releases nothing, and no lock is held at the end |
| IrqFanOut.SpuriousLineSkipped | kernel/arch/mips32/src/exception.c:155-163 | with lines 2 and 5 pending and only line 2 registered, line 2's handler runs once under its lock and line 5 is looked up and skipped without a handler call or unlock |

## Left out

- `decode_istate` (exception.c:74-86) only prints the frame. The model
  keeps its register list as the fields of `IState` and does not render it.
- The collaborators are not modelled; each is recorded as an `Outcome` or a
  trace event. They are `fault_if_from_uspace`, `panic_badtrap`,
  `tlb_modified`, `tlb_invalid`, `debugger_bpoint`,
  `scheduler_fpu_lazy_request`, `irq_dispatch_and_lock`, the IRQ handlers
  themselves and `irq_spinlock_unlock`. Their bodies are not part of this
  model. Any further change they make to the frame or to other state is
  not captured.
- The body of `exc_register` is not part of this model. `ExcTable.Register`
  states what the model assumes it does: it stores (name, hot, handler) in
  slot n and leaves every other slot as it was. Its return value and its
  own range check are not modelled.
- `exc_dispatch`, the generic code that indexes the table and calls the
  slot's routine, is not part of this model. So the fatal handling of an
  out-of-range cause code is not modelled either.
- `istate_from_uspace` is the abstract predicate `fromUspace`, because its
  definition is not part of this model.
- The instruction fetch at epc is the function `word`. Address errors,
  TLB misses and misaligned fetches on that load are not modelled.
- SMP, spinlock semantics and the atomicity of lookup-and-lock are not
  modelled. They are concurrency; the lock state is the ghost set of held
  lines.
- The spurious-interrupt `printf` under CONFIG_DEBUG (exception.c:159-162)
  is output only.
- The state of the lazy FPU context switch and of the debugger lives
  outside this layer. A handler only reports that it handed the trap over.
- The numeric values of `EXC_*`, `IVT_ITEMS` and `fpu_cop_id` are taken as
  parameters, because the headers that define them are not part of this
  model.
- Handlers.CpunsException: it exists only in a CONFIG_FPU_LAZY build. The
  model does not take the configuration as an argument. Instead,
  `InitialTable` registers it only when `fpuLazy` holds.
