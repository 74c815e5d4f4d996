/**
 * `exception_init`: the population of the exception vector table with the
 * MIPS32 handlers.
 */
module ExceptionInit {
  import opened Wrappers
  import opened ExcNames
  import opened Vectors
  import opened Handlers

  /** The cause codes EXC_* and the table size IVT_ITEMS of the architecture headers. */
  datatype CauseCodes = CauseCodes(
    excInt: nat, excMod: nat, excTlbl: nat, excTlbs: nat,
    excSys: nat, excBp: nat, excRi: nat, excCpu: nat,
    ivtItems: nat)
  {
    /** The codes that exception_init registers explicitly. */
    function Overridden(): seq<nat>
    {
      [excInt, excMod, excTlbl, excTlbs, excSys, excBp, excRi, excCpu]
    }

    /**
     * The codes are distinct slots of the table, and every slot has an entry in
     * the name table that unhandled_exception reads. Spelled out, each code
     * is below ivtItems and no two are equal.
     */
    predicate WellFormed()
      ensures WellFormed() ==> excInt < ivtItems && excMod < ivtItems && excTlbl < ivtItems
      ensures WellFormed() ==> excTlbs < ivtItems && excSys < ivtItems && excBp < ivtItems
      ensures WellFormed() ==> excRi < ivtItems && excCpu < ivtItems
      ensures WellFormed() ==> excInt != excMod && excInt != excTlbl && excInt != excTlbs && excInt != excSys
      ensures WellFormed() ==> excInt != excBp && excInt != excRi && excInt != excCpu
      ensures WellFormed() ==> excMod != excTlbl && excMod != excTlbs && excMod != excSys
      ensures WellFormed() ==> excMod != excBp && excMod != excRi && excMod != excCpu
      ensures WellFormed() ==> excTlbl != excTlbs && excTlbl != excSys && excTlbl != excBp
      ensures WellFormed() ==> excTlbl != excRi && excTlbl != excCpu
      ensures WellFormed() ==> excTlbs != excSys && excTlbs != excBp && excTlbs != excRi && excTlbs != excCpu
      ensures WellFormed() ==> excSys != excBp && excSys != excRi && excSys != excCpu
      ensures WellFormed() ==> excBp != excRi && excBp != excCpu && excRi != excCpu
    {
      assert Overridden()[0] == excInt && Overridden()[1] == excMod;
      assert Overridden()[2] == excTlbl && Overridden()[3] == excTlbs;
      assert Overridden()[4] == excSys && Overridden()[5] == excBp;
      assert Overridden()[6] == excRi && Overridden()[7] == excCpu;
      ivtItems <= EXC_NAMES_COUNT &&
      (forall i :: 0 <= i < |Overridden()| ==> Overridden()[i] < ivtItems) &&
      (forall i, j :: 0 <= i < j < |Overridden()| ==> Overridden()[i] != Overridden()[j])
    }
  }

  /** The MIPS32 values, which are the positions of the matching names in the name table. */
  const MIPS32_CODES := CauseCodes(0, 1, 2, 3, 8, 9, 10, 11, 32)

  /** The slot every cause code gets before the explicit registrations. */
  const UNDEF_SLOT := Slot("undef", false, Unhandled)

  /** The slot that cause code i holds once exception_init has run. */
  function ExpectedSlot(c: CauseCodes, cfg: Config, i: int): Slot
  {
    if i == c.excBp then Slot("bkpoint", true, Breakpoint)
    else if i == c.excRi then Slot("resinstr", true, ReservedInstr)
    else if i == c.excMod then Slot("tlb_mod", true, TlbMod)
    else if i == c.excTlbl || i == c.excTlbs then Slot("tlbinvl", true, TlbInv)
    else if i == c.excInt then Slot("interrupt", true, Interrupt)
    else if i == c.excCpu && cfg.fpuLazy then Slot("cpunus", true, CpuUnusable)
    else if i == c.excSys then Slot("syscall", true, Syscall)
    else UNDEF_SLOT
  }

  /**
   * The table exception_init leaves behind: every slot holds a handler; the
   * explicitly registered codes hold theirs, marked hot; the coprocessor
   * unusable code is registered only with CONFIG_FPU_LAZY; every other slot
   * holds unhandled_exception under the name "undef", not hot.
   */
  function InitialTable(c: CauseCodes, cfg: Config): (t: seq<Slot>)
    requires c.WellFormed()
    ensures |t| == c.ivtItems
    ensures forall i :: 0 <= i < |t| ==> t[i].handler != NoHandler
    ensures t[c.excBp] == Slot("bkpoint", true, Breakpoint)
    ensures t[c.excRi] == Slot("resinstr", true, ReservedInstr)
    ensures t[c.excMod] == Slot("tlb_mod", true, TlbMod)
    ensures t[c.excTlbl] == Slot("tlbinvl", true, TlbInv)
    ensures t[c.excTlbs] == Slot("tlbinvl", true, TlbInv)
    ensures t[c.excInt] == Slot("interrupt", true, Interrupt)
    ensures t[c.excSys] == Slot("syscall", true, Syscall)
    ensures t[c.excCpu] == if cfg.fpuLazy then Slot("cpunus", true, CpuUnusable) else UNDEF_SLOT
    ensures forall i :: 0 <= i < |t| && i !in c.Overridden() ==> t[i] == UNDEF_SLOT
    ensures forall i :: 0 <= i < |t| ==> (t[i].hot <==> t[i] != UNDEF_SLOT)
  {
    seq(c.ivtItems, i => ExpectedSlot(c, cfg, i))
  }

  /**
   * The registrations of exception_init applied in source order to a table
   * whose every slot is undef.
   */
  function Registrations(c: CauseCodes, cfg: Config): (t: seq<Slot>)
    requires c.WellFormed()
    ensures |t| == c.ivtItems
  {
    var cleared := seq(c.ivtItems, _ => UNDEF_SLOT);
    var t := cleared[c.excBp := Slot("bkpoint", true, Breakpoint)]
                    [c.excRi := Slot("resinstr", true, ReservedInstr)]
                    [c.excMod := Slot("tlb_mod", true, TlbMod)]
                    [c.excTlbl := Slot("tlbinvl", true, TlbInv)]
                    [c.excTlbs := Slot("tlbinvl", true, TlbInv)]
                    [c.excInt := Slot("interrupt", true, Interrupt)];
    var t := if cfg.fpuLazy then t[c.excCpu := Slot("cpunus", true, CpuUnusable)] else t;
    t[c.excSys := Slot("syscall", true, Syscall)]
  }

  /** With distinct cause codes no registration overwrites another: slot i ends as ExpectedSlot says. */
  lemma RegistrationsAt(c: CauseCodes, cfg: Config, i: nat)
    requires c.WellFormed() && i < c.ivtItems
    ensures Registrations(c, cfg)[i] == ExpectedSlot(c, cfg, i)
  {
  }

  /**
   * The registrations in source order give the table InitialTable describes.
   */
  lemma RegistrationsGiveInitialTable(c: CauseCodes, cfg: Config)
    requires c.WellFormed()
    ensures Registrations(c, cfg) == InitialTable(c, cfg)
  {
    var r, t := Registrations(c, cfg), InitialTable(c, cfg);
    forall i | 0 <= i < |r| ensures r[i] == t[i] {
      RegistrationsAt(c, cfg, i);
    }
  }

  /**
   * `exception_init`: fills every slot with unhandled_exception, then
   * registers the MIPS32 handlers over it.
   */
  method ExceptionInit(table: ExcTable, c: CauseCodes, cfg: Config)
    requires c.WellFormed() && table.slots.Length == c.ivtItems
    modifies table.slots
    ensures table.slots[..] == InitialTable(c, cfg)
  {
    var i := 0;
    while i < c.ivtItems
      invariant i <= c.ivtItems
      invariant forall k :: 0 <= k < i ==> table.slots[k] == UNDEF_SLOT
    {
      table.Register(i, "undef", false, Unhandled);
      i := i + 1;
    }
    assert table.slots[..] == seq(c.ivtItems, _ => UNDEF_SLOT);
    table.Register(c.excBp, "bkpoint", true, Breakpoint);
    table.Register(c.excRi, "resinstr", true, ReservedInstr);
    table.Register(c.excMod, "tlb_mod", true, TlbMod);
    table.Register(c.excTlbl, "tlbinvl", true, TlbInv);
    table.Register(c.excTlbs, "tlbinvl", true, TlbInv);
    table.Register(c.excInt, "interrupt", true, Interrupt);
    if cfg.fpuLazy {
      table.Register(c.excCpu, "cpunus", true, CpuUnusable);
    }
    table.Register(c.excSys, "syscall", true, Syscall);
    assert table.slots[..] == Registrations(c, cfg);
    RegistrationsGiveInitialTable(c, cfg);
  }

  /**
   * The MIPS32 cause codes are well formed, and each names the exception its
   * handler serves in the name table.
   */
  lemma Mips32CodesMatchNames()
    ensures MIPS32_CODES.WellFormed()
    ensures ExcName(MIPS32_CODES.excInt) == Some("Interrupt")
    ensures ExcName(MIPS32_CODES.excMod) == Some("TLB Modified")
    ensures ExcName(MIPS32_CODES.excTlbl) == Some("TLB Invalid")
    ensures ExcName(MIPS32_CODES.excTlbs) == Some("TLB Invalid Store")
    ensures ExcName(MIPS32_CODES.excSys) == Some("Syscall")
    ensures ExcName(MIPS32_CODES.excBp) == Some("BreakPoint")
    ensures ExcName(MIPS32_CODES.excRi) == Some("Reserved Instruction")
    ensures ExcName(MIPS32_CODES.excCpu) == Some("Coprocessor Unusable")
  {
  }
}
