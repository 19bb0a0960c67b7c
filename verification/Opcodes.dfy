/** Opcode fields shared by classic BPF and eBPF: the low three bits are the class, the rest depends on it. */
module Opcodes {

  function Class(code: nat): nat { code % 8 }          // BPF_CLASS: code & 0x07
  function Op(code: nat): nat { code / 16 % 16 * 16 }  // BPF_OP:    code & 0xf0
  function Src(code: nat): nat { code / 8 % 2 * 8 }    // BPF_SRC:   code & 0x08
  function Size(code: nat): nat { code / 8 % 4 * 8 }   // BPF_SIZE:  code & 0x18
  function Mode(code: nat): nat { code / 32 % 8 * 32 } // BPF_MODE:  code & 0xe0

  // Classes
  const BPF_LD := 0x00
  const BPF_LDX := 0x01
  const BPF_ST := 0x02
  const BPF_STX := 0x03
  const BPF_ALU := 0x04
  const BPF_JMP := 0x05
  const BPF_RET := 0x06    // classic only
  const BPF_JMP32 := 0x06  // eBPF only
  const BPF_MISC := 0x07   // classic only
  const BPF_ALU64 := 0x07  // eBPF only

  // Operand source, and the accumulator as the value of a RET
  const BPF_K := 0x00
  const BPF_X := 0x08
  const BPF_A := 0x10

  // Load and store widths and addressing modes
  const BPF_W := 0x00
  const BPF_H := 0x08
  const BPF_B := 0x10
  const BPF_DW := 0x18
  const BPF_IMM := 0x00
  const BPF_ABS := 0x20
  const BPF_IND := 0x40
  const BPF_MEM := 0x60
  const BPF_MSH := 0xa0

  // Arithmetic
  const BPF_ADD := 0x00
  const BPF_SUB := 0x10
  const BPF_MUL := 0x20
  const BPF_DIV := 0x30
  const BPF_OR := 0x40
  const BPF_AND := 0x50
  const BPF_LSH := 0x60
  const BPF_RSH := 0x70
  const BPF_NEG := 0x80
  const BPF_MOD := 0x90
  const BPF_XOR := 0xa0
  const BPF_MOV := 0xb0
  const BPF_END := 0xd0

  // Jumps
  const BPF_JA := 0x00
  const BPF_JEQ := 0x10
  const BPF_JGT := 0x20
  const BPF_JGE := 0x30
  const BPF_JSET := 0x40
  const BPF_JNE := 0x50
  const BPF_CALL := 0x80
  const BPF_EXIT := 0x90
  const BPF_JLT := 0xa0
  const BPF_JLE := 0xb0
  const BPF_JSLT := 0xc0

  // MISC
  const BPF_TAX := 0x00
  const BPF_TXA := 0x80

  const BPF_PSEUDO_CALL := 1
  const BPF_FUNC_probe_read_kernel := 113
  const BPF_MAXINSNS := 4096
  const BPF_MEMWORDS := 16
  const EINVAL := 22
  const EFAULT := 14

  /** The fields of an arithmetic or jump opcode, and of a load or store opcode. */
  lemma OpcodeFields(cls: nat, op: nat, src: nat)
    requires cls < 8 && op <= 0xf0 && op % 16 == 0 && (src == BPF_K || src == BPF_X)
    ensures Class(cls + op + src) == cls && Op(cls + op + src) == op && Src(cls + op + src) == src
  {
    var q := op / 16;
    assert op == 16 * q;
    assert (cls + op + src) / 16 == q;
    assert (cls + op + src) / 8 == 2 * q + src / 8;
  }

  lemma MemFields(cls: nat, size: nat)
    requires cls < 8 && (size == BPF_W || size == BPF_H || size == BPF_B || size == BPF_DW)
    ensures Class(cls + size + BPF_MEM) == cls && Size(cls + size + BPF_MEM) == size
    ensures Mode(cls + size + BPF_MEM) == BPF_MEM && Size(size) == size
  {
  }

  /** Bytes moved by a packet load: anything but B and H is a word. */
  function SizeBytes(code: nat): (n: nat)
    ensures n in {1, 2, 4}
  {
    if Size(code) == BPF_B then 1 else if Size(code) == BPF_H then 2 else 4
  }
}
