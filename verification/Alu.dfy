/** eBPF arithmetic on one register, as 64-bit machine arithmetic truncated to the operation's width. */
module Alu {
  import opened Words
  import opened Opcodes

  function ShiftAmount(is64: bool, src: Word64): nat { src % (if is64 then 64 else 32) }

  /** Section 4.1 of RFC 9669; the result is truncated to the width of the operation afterwards. */
  function AluRaw(is64: bool, op: nat, dst: Word64, src: Word64): int {
    if op == BPF_MOV then src
    else if op == BPF_ADD then dst + src
    else if op == BPF_SUB then dst - src
    else if op == BPF_MUL then dst * src
    else if op == BPF_DIV then if src == 0 then 0 else dst / src
    else if op == BPF_MOD then if src == 0 then dst else dst % src
    else if op == BPF_NEG then 0 - dst
    else if op == BPF_AND then BitAnd(dst, src)
    else if op == BPF_OR then BitOr(dst, src)
    else if op == BPF_XOR then BitXor(dst, src)
    else if op == BPF_LSH then dst * Pow2(ShiftAmount(is64, src))
    else if op == BPF_RSH then dst / Pow2(ShiftAmount(is64, src))
    else 0
  }

  function AluResult(is64: bool, op: nat, dst: Word64, src: Word64): Word64 {
    if is64 then ToU64(AluRaw(true, op, dst, src)) else ToU32(AluRaw(false, op, ToU32(dst), ToU32(src)))
  }

  // ----- single operations -----

  lemma MovResult(is64: bool, dst: Word64, src: Word64)
    ensures AluResult(is64, BPF_MOV, dst, src) == if is64 then src else ToU32(src)
  {
    hide BitAnd, BitOr, BitXor, Pow2, ShiftAmount;
    U32Same(ToU32(src));
    U64Same(src);
  }

  lemma AddResult(is64: bool, dst: Word64, src: Word64)
    ensures AluResult(is64, BPF_ADD, dst, src) ==
      if is64 then ToU64(dst as int + src as int) else ToU32(ToU32(dst) + ToU32(src))
  {
    hide BitAnd, BitOr, BitXor, Pow2, ShiftAmount, ToU32, ToU64;
  }

  lemma SubResult(dst: Word64, src: Word64)
    ensures AluResult(true, BPF_SUB, dst, src) == ToU64(dst as int - src as int)
  {
    hide BitAnd, BitOr, BitXor, Pow2, ShiftAmount, ToU32, ToU64;
  }

  lemma LowNibbleResult(dst: Word64)
    ensures AluResult(false, BPF_AND, dst, 15) == ToU32(dst) % 16
  {
    hide BitAnd, BitOr, BitXor, Pow2, ShiftAmount, ToU32, ToU64;
    U32Same(15);
    BitAndLowNibble(ToU32(dst));
    U32Same(ToU32(dst) % 16);
  }

  lemma TimesFourResult(dst: Word64)
    ensures AluResult(false, BPF_LSH, dst, 2) == ToU32(ToU32(dst) * 4)
  {
    hide BitAnd, BitOr, BitXor, ToU32, ToU64;
    U32Same(2);
    assert Pow2(2) == 4 by { assert Pow2(1) == 2; }
  }

  /** An immediate reduced before the sum or with it. */
  lemma U64SumReduced(a: Word64, imm: Int32)
    ensures ToU64(a + ToU64(imm)) == ToU64(a + imm)
  {
    assert ToU64(imm) == if imm >= 0 then imm else imm + TWO64;
  }
}
