/** The instruction set: the closed set of opcodes and the decoded
    instruction with its five operand slots. */
module Isa {
  import opened Int32

  datatype Opcode =
    | Nop | Add | Sub | Mul | Div | Store | Load | LoadImmediate | Push | Pop
    | Jmp | Jz | Jnz | Mov | Je | Jne | And | Or | Xor | Not | Shl | Shr
    | Cmp | Test | B | Bz | Bnz | Neg | Abs | Mod | Inc | Dec | Halt

  /** A decoded instruction. Register indices and the address are `usize`
      in the machine, modelled as unbounded naturals; an opcode ignores the
      slots it does not use. */
  datatype Instruction = Instruction(
    opcode: Opcode,
    reg1: nat,
    reg2: nat,
    reg3: nat,
    addr: nat,
    immediate: i32)

  /** Taken jumps that redirect the instruction pointer and skip the
      end-of-iteration bookkeeping (the instruction count is not advanced). */
  predicate IsUncountedJump(op: Opcode) {
    op in {Jmp, B, Jz, Bz, Jnz, Bnz}
  }

  /** Jumps whose taken branch still falls through to the end-of-iteration
      bookkeeping. */
  predicate IsCountedJump(op: Opcode) {
    op in {Je, Jne}
  }
}
