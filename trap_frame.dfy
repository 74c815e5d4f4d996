/**
 * The saved trap frame (`istate_t`) that the trap trampoline hands to every
 * exception handler, and the 32-bit address arithmetic on its `epc` field.
 */
module TrapFrame {

  /** A 32-bit machine word (`uintptr_t`, `uint32_t`). */
  type Word = x: int | 0 <= x < 0x1_0000_0000

  /** A value snapshot of every register the frame saves. */
  datatype Frame = Frame(
    at: Word, v0: Word, v1: Word,
    a0: Word, a1: Word, a2: Word, a3: Word,
    t0: Word, t1: Word, t2: Word, t3: Word, t4: Word,
    t5: Word, t6: Word, t7: Word, t8: Word, t9: Word,
    gp: Word, sp: Word, ra: Word,
    lo: Word, hi: Word,
    status: Word, epc: Word, k1: Word)

  /** The frame itself: a record that handlers update in place. */
  class IState {
    var at: Word
    var v0: Word
    var v1: Word
    var a0: Word
    var a1: Word
    var a2: Word
    var a3: Word
    var t0: Word
    var t1: Word
    var t2: Word
    var t3: Word
    var t4: Word
    var t5: Word
    var t6: Word
    var t7: Word
    var t8: Word
    var t9: Word
    var gp: Word
    var sp: Word
    var ra: Word
    var lo: Word
    var hi: Word
    var status: Word
    var epc: Word
    var k1: Word

    /** The registers the frame currently holds. */
    function View(): Frame
      reads this
    {
      Frame(at, v0, v1, a0, a1, a2, a3, t0, t1, t2, t3, t4, t5, t6, t7, t8, t9,
            gp, sp, ra, lo, hi, status, epc, k1)
    }
  }

  /**
   * The address of the instruction after the one at `pc`: `epc` is a 32-bit
   * `uintptr_t`, so adding the 4-byte instruction width wraps at 2^32.
   */
  function NextPc(pc: Word): (r: Word)
    ensures pc < 0x1_0000_0000 - 4 ==> r == pc + 4
    ensures pc >= 0x1_0000_0000 - 4 ==> r == pc + 4 - 0x1_0000_0000
  {
    (pc + 4) % 0x1_0000_0000
  }
}
