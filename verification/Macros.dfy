/** The instruction-building macros of linux/filter.h and bpf_convert.c, and the converter's register roles. */
module Macros {
  import opened Words
  import opened Opcodes
  import opened Ebpf

  const REG_A := 0
  const REG_TMP := 2
  const REG_CTX := 6
  const REG_X := 7
  const REG_FP := 10

  function Alu32Reg(op: Byte, dst: Byte, src: Byte): BpfInsn
    requires op <= 0xf0
  { BpfInsn(BPF_ALU + op + BPF_X, dst, src, 0, 0) }

  function Alu32Imm(op: Byte, dst: Byte, imm: Int32): BpfInsn
    requires op <= 0xf0
  { BpfInsn(BPF_ALU + op + BPF_K, dst, 0, 0, imm) }

  function Alu64Reg(op: Byte, dst: Byte, src: Byte): BpfInsn
    requires op <= 0xf0
  { BpfInsn(BPF_ALU64 + op + BPF_X, dst, src, 0, 0) }

  function Alu64Imm(op: Byte, dst: Byte, imm: Int32): BpfInsn
    requires op <= 0xf0
  { BpfInsn(BPF_ALU64 + op + BPF_K, dst, 0, 0, imm) }

  function Mov32Reg(dst: Byte, src: Byte): BpfInsn { Alu32Reg(BPF_MOV, dst, src) }
  function Mov32Imm(dst: Byte, imm: Int32): BpfInsn { Alu32Imm(BPF_MOV, dst, imm) }
  function Mov64Reg(dst: Byte, src: Byte): BpfInsn { Alu64Reg(BPF_MOV, dst, src) }
  function Mov64Imm(dst: Byte, imm: Int32): BpfInsn { Alu64Imm(BPF_MOV, dst, imm) }

  function JmpReg(op: Byte, dst: Byte, src: Byte, off: Int16): BpfInsn
    requires op <= 0xf0
  { BpfInsn(BPF_JMP + op + BPF_X, dst, src, off, 0) }

  function JmpImm(op: Byte, dst: Byte, imm: Int32, off: Int16): BpfInsn
    requires op <= 0xf0
  { BpfInsn(BPF_JMP + op + BPF_K, dst, 0, off, imm) }

  function Jmp32Imm(op: Byte, dst: Byte, imm: Int32, off: Int16): BpfInsn
    requires op <= 0xf0
  { BpfInsn(BPF_JMP32 + op + BPF_K, dst, 0, off, imm) }

  function Ja(off: Int16): BpfInsn { JmpImm(BPF_JA, 0, 0, off) }

  function LdxMem(size: Byte, dst: Byte, src: Byte, off: Int16): BpfInsn
    requires size <= BPF_DW
  { BpfInsn(BPF_LDX + size + BPF_MEM, dst, src, off, 0) }

  function StxMem(size: Byte, dst: Byte, src: Byte, off: Int16): BpfInsn
    requires size <= BPF_DW
  { BpfInsn(BPF_STX + size + BPF_MEM, dst, src, off, 0) }

  function FromBigEndian(dst: Byte, bits: Int32): BpfInsn { BpfInsn(BPF_ALU + BPF_END + BPF_X, dst, 0, 0, bits) }
  function EmitCall(func: Int32): BpfInsn { BpfInsn(BPF_JMP + BPF_CALL, 0, 0, 0, func) }
  function ExitInsn(): BpfInsn { BpfInsn(BPF_JMP + BPF_EXIT, 0, 0, 0, 0) }
}
