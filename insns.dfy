/** The abstract instruction set shared by the calculator, the interpreter and
    both native backends, and the byte type of the machine code they emit. */
module Insns {

  /** An unsigned 8-bit value, as Rust's `u8`. */
  type u8 = bv8

  /** The six abstract instructions. `Reset` and `Return` are only ever
      inserted by the code generator; the other four come from program text. */
  datatype Insn = Reset | Return | Incr | Decr | Double | Halve

  /** The four instructions that program text can produce. */
  predicate IsUserInsn(insn: Insn) {
    insn != Reset && insn != Return
  }
}
