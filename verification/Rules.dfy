/** One rule per kind of emitted instruction: a run that has reached it is one step longer.
    Proofs about blocks chain these rules and keep the interpreter itself hidden. */
module Rules {
  import opened Words
  import opened Opcodes
  import opened Alu
  import opened Ebpf
  import opened Macros

  predicate CodeAt(prog: seq<BpfInsn>, at: int, code: seq<BpfInsn>) {
    0 <= at && at + |code| <= |prog| && prog[at..at + |code|] == code
  }

  lemma CodeAtSplit(prog: seq<BpfInsn>, at: int, a: seq<BpfInsn>, b: seq<BpfInsn>)
    requires CodeAt(prog, at, a + b)
    ensures CodeAt(prog, at, a) && CodeAt(prog, at + |a|, b)
  {
    assert a == (a + b)[..|a|] && b == (a + b)[|a|..];
  }

  lemma CodeAtPrefix(prog: seq<BpfInsn>, at: int, code: seq<BpfInsn>, prefix: seq<BpfInsn>)
    requires CodeAt(prog, at, code) && prefix <= code
    ensures CodeAt(prog, at, prefix)
  {
    assert code == prefix + code[|prefix|..];
    CodeAtSplit(prog, at, prefix, code[|prefix|..]);
  }

  lemma Fetch(prog: seq<BpfInsn>, at: int, code: seq<BpfInsn>)
    requires CodeAt(prog, at, code)
    ensures 0 <= at && at + |code| <= |prog|
    ensures forall p {:trigger prog[p]} | at <= p < at + |code| :: prog[p] == code[p - at]
  {
    forall p {:trigger prog[p]} | at <= p < at + |code| ensures prog[p] == code[p - at] {
      assert prog[p] == prog[at..at + |code|][p - at];
    }
  }

  lemma Concat(prog: seq<BpfInsn>, env: Env, s: State, m: nat, t: State, n: nat)
    requires Run(prog, env, s, m) == Running(t)
    ensures Run(prog, env, s, m + n) == Run(prog, env, t, n)
  {
    hide Step;
    IterAdd(prog, env, Running(s), m, n);
  }

  predicate At(prog: seq<BpfInsn>, env: Env, s: State, n: nat, t: State) {
    Run(prog, env, s, n) == Running(t)
  }

  lemma Begin(prog: seq<BpfInsn>, env: Env, s: State)
    ensures At(prog, env, s, 0, s)
  {
  }

  predicate Fetches(prog: seq<BpfInsn>, t: State) {
    0 <= t.pc < |prog| && prog[t.pc].dst < 11 && prog[t.pc].src < 11
  }

  /** A jump proper: not a call and not EXIT. */
  predicate IsJump(insn: BpfInsn) {
    (Class(insn.code) == BPF_JMP || Class(insn.code) == BPF_JMP32) &&
    Op(insn.code) != BPF_CALL && Op(insn.code) != BPF_EXIT
  }

  lemma DoStep(prog: seq<BpfInsn>, env: Env, s: State, n: nat, t: State)
    requires At(prog, env, s, n, t)
    ensures Run(prog, env, s, n + 1) == Step(prog, env, t)
  {
    IterAdd(prog, env, Running(s), n, 1);
  }

  /** The state after an instruction that writes one register. */
  function SetReg(t: State, r: int, v: Word64): State
    requires 0 <= r < 11
  {
    State(t.pc + 1, t.regs[r := v], t.frame)
  }

  // ----- arithmetic -----

  /** An arithmetic instruction proper: not a conversion of byte order. */
  lemma DoAlu(prog: seq<BpfInsn>, env: Env, s: State, n: nat, t: State, is64: bool) returns (t': State)
    requires At(prog, env, s, n, t) && Fetches(prog, t)
    requires Class(prog[t.pc].code) == (if is64 then BPF_ALU64 else BPF_ALU) && Op(prog[t.pc].code) != BPF_END
    ensures At(prog, env, s, n + 1, t')
    ensures var insn := prog[t.pc];
      t' == SetReg(t, insn.dst, AluResult(is64, Op(insn.code), t.regs[insn.dst], GetSrcVal(t.regs, insn, is64)))
  {
    hide Iter, Class, Op, Src, AluResult, ByteOrder, GetSrcVal, ExecJmp, ExecLoad, ExecStore;
    DoStep(prog, env, s, n, t);
    t' := Step(prog, env, t).state;
  }

  lemma DoMov32Reg(prog: seq<BpfInsn>, env: Env, s: State, n: nat, t: State, dst: Byte, src: Byte) returns (t': State)
    requires At(prog, env, s, n, t) && Fetches(prog, t) && prog[t.pc] == Mov32Reg(dst, src)
    ensures At(prog, env, s, n + 1, t') && t' == SetReg(t, dst, ToU32(t.regs[src]))
  {
    hide At, AluResult, Class, Op, Src, ToU32;
    OpcodeFields(BPF_ALU, BPF_MOV, BPF_X);
    t' := DoAlu(prog, env, s, n, t, false);
    MovResult(false, t.regs[dst], ToU32(t.regs[src]));
    U32Same(ToU32(t.regs[src]));
  }

  lemma DoMov64Reg(prog: seq<BpfInsn>, env: Env, s: State, n: nat, t: State, dst: Byte, src: Byte) returns (t': State)
    requires At(prog, env, s, n, t) && Fetches(prog, t) && prog[t.pc] == Mov64Reg(dst, src)
    ensures At(prog, env, s, n + 1, t') && t' == SetReg(t, dst, t.regs[src])
  {
    hide At, AluResult, Class, Op, Src;
    OpcodeFields(BPF_ALU64, BPF_MOV, BPF_X);
    t' := DoAlu(prog, env, s, n, t, true);
    MovResult(true, t.regs[dst], t.regs[src]);
  }

  lemma DoMov32Imm(prog: seq<BpfInsn>, env: Env, s: State, n: nat, t: State, dst: Byte, imm: Int32) returns (t': State)
    requires At(prog, env, s, n, t) && Fetches(prog, t) && prog[t.pc] == Mov32Imm(dst, imm)
    ensures At(prog, env, s, n + 1, t') && t' == SetReg(t, dst, ToU32(imm))
  {
    hide At, AluResult, Class, Op, Src, ToU32;
    OpcodeFields(BPF_ALU, BPF_MOV, BPF_K);
    t' := DoAlu(prog, env, s, n, t, false);
    MovResult(false, t.regs[dst], ToU32(imm));
    U32Same(ToU32(imm));
  }

  lemma DoMov64Imm(prog: seq<BpfInsn>, env: Env, s: State, n: nat, t: State, dst: Byte, imm: Int32) returns (t': State)
    requires At(prog, env, s, n, t) && Fetches(prog, t) && prog[t.pc] == Mov64Imm(dst, imm)
    ensures At(prog, env, s, n + 1, t') && t' == SetReg(t, dst, ToU64(imm))
  {
    hide At, AluResult, Class, Op, Src, ToU64;
    OpcodeFields(BPF_ALU64, BPF_MOV, BPF_K);
    t' := DoAlu(prog, env, s, n, t, true);
    MovResult(true, t.regs[dst], ToU64(imm));
  }

  lemma DoAdd32Imm(prog: seq<BpfInsn>, env: Env, s: State, n: nat, t: State, dst: Byte, imm: Int32) returns (t': State)
    requires At(prog, env, s, n, t) && Fetches(prog, t) && prog[t.pc] == Alu32Imm(BPF_ADD, dst, imm)
    ensures At(prog, env, s, n + 1, t') && t' == SetReg(t, dst, ToU32(ToU32(t.regs[dst]) + ToU32(imm)))
  {
    hide At, AluResult, Class, Op, Src, ToU32;
    OpcodeFields(BPF_ALU, BPF_ADD, BPF_K);
    t' := DoAlu(prog, env, s, n, t, false);
    AddResult(false, t.regs[dst], ToU32(imm));
    U32Same(ToU32(imm));
  }

  lemma DoAdd64Imm(prog: seq<BpfInsn>, env: Env, s: State, n: nat, t: State, dst: Byte, imm: Int32) returns (t': State)
    requires At(prog, env, s, n, t) && Fetches(prog, t) && prog[t.pc] == Alu64Imm(BPF_ADD, dst, imm)
    ensures At(prog, env, s, n + 1, t') && t' == SetReg(t, dst, ToU64(t.regs[dst] + imm))
  {
    hide At, AluResult, Class, Op, Src, ToU64;
    OpcodeFields(BPF_ALU64, BPF_ADD, BPF_K);
    t' := DoAlu(prog, env, s, n, t, true);
    AddResult(true, t.regs[dst], ToU64(imm));
    U64SumReduced(t.regs[dst], imm);
  }

  lemma DoAdd64Reg(prog: seq<BpfInsn>, env: Env, s: State, n: nat, t: State, dst: Byte, src: Byte) returns (t': State)
    requires At(prog, env, s, n, t) && Fetches(prog, t) && prog[t.pc] == Alu64Reg(BPF_ADD, dst, src)
    ensures At(prog, env, s, n + 1, t') && t' == SetReg(t, dst, ToU64(t.regs[dst] as int + t.regs[src] as int))
  {
    hide At, AluResult, Class, Op, Src, ToU64;
    OpcodeFields(BPF_ALU64, BPF_ADD, BPF_X);
    t' := DoAlu(prog, env, s, n, t, true);
    AddResult(true, t.regs[dst], t.regs[src]);
  }

  lemma DoSub64Reg(prog: seq<BpfInsn>, env: Env, s: State, n: nat, t: State, dst: Byte, src: Byte) returns (t': State)
    requires At(prog, env, s, n, t) && Fetches(prog, t) && prog[t.pc] == Alu64Reg(BPF_SUB, dst, src)
    ensures At(prog, env, s, n + 1, t') && t' == SetReg(t, dst, ToU64(t.regs[dst] as int - t.regs[src] as int))
  {
    hide At, AluResult, Class, Op, Src, ToU64;
    OpcodeFields(BPF_ALU64, BPF_SUB, BPF_X);
    t' := DoAlu(prog, env, s, n, t, true);
    SubResult(t.regs[dst], t.regs[src]);
  }

  lemma DoLowNibble(prog: seq<BpfInsn>, env: Env, s: State, n: nat, t: State, dst: Byte) returns (t': State)
    requires At(prog, env, s, n, t) && Fetches(prog, t) && prog[t.pc] == Alu32Imm(BPF_AND, dst, 15)
    ensures At(prog, env, s, n + 1, t') && t' == SetReg(t, dst, ToU32(t.regs[dst]) % 16)
  {
    hide At, AluResult, Class, Op, Src, ToU32;
    OpcodeFields(BPF_ALU, BPF_AND, BPF_K);
    U32Same(15);
    t' := DoAlu(prog, env, s, n, t, false);
    LowNibbleResult(t.regs[dst]);
  }

  lemma DoTimesFour(prog: seq<BpfInsn>, env: Env, s: State, n: nat, t: State, dst: Byte) returns (t': State)
    requires At(prog, env, s, n, t) && Fetches(prog, t) && prog[t.pc] == Alu32Imm(BPF_LSH, dst, 2)
    ensures At(prog, env, s, n + 1, t') && t' == SetReg(t, dst, ToU32(ToU32(t.regs[dst]) * 4))
  {
    hide At, AluResult, Class, Op, Src, ToU32;
    OpcodeFields(BPF_ALU, BPF_LSH, BPF_K);
    U32Same(2);
    t' := DoAlu(prog, env, s, n, t, false);
    TimesFourResult(t.regs[dst]);
  }

  lemma DoFromBE(prog: seq<BpfInsn>, env: Env, s: State, n: nat, t: State, dst: Byte, size: nat) returns (t': State)
    requires At(prog, env, s, n, t) && Fetches(prog, t) && prog[t.pc] == FromBigEndian(dst, if size == 2 then 16 else 32)
    requires size in {2, 4} && t.regs[dst] < Pow256(size)
    ensures At(prog, env, s, n + 1, t') && t' == SetReg(t, dst, ToU32(FromBE(env.bigEndian, t.regs[dst], size)))
  {
    hide Iter, Class, Op, Src, AluResult, GetSrcVal, ExecJmp, ExecLoad, ExecStore, FromBE, Pow256, ToU32;
    OpcodeFields(BPF_ALU, BPF_END, BPF_X);
    ModuloUnique(t.regs[dst], Pow256(size), 0, t.regs[dst]);
    DoStep(prog, env, s, n, t);
    t' := Step(prog, env, t).state;
  }

  // ----- jumps -----

  lemma DoJump(prog: seq<BpfInsn>, env: Env, s: State, n: nat, t: State) returns (t': State)
    requires At(prog, env, s, n, t) && Fetches(prog, t) && IsJump(prog[t.pc])
    ensures At(prog, env, s, n + 1, t')
    ensures t' == t.(pc := t.pc + 1 + if JumpTaken(t.regs, prog[t.pc]) then prog[t.pc].off else 0)
  {
    hide Iter, Class, Op, JumpTaken, ExecAlu, ExecLoad, ExecStore, ProbeRead;
    DoStep(prog, env, s, n, t);
    t' := Step(prog, env, t).state;
  }

  /** The operations a jump instruction can have. */
  predicate JumpOp(op: nat) { op <= 0xf0 && op != BPF_CALL && op != BPF_EXIT && op % 16 == 0 }

  lemma DoJmpReg(prog: seq<BpfInsn>, env: Env, s: State, n: nat, t: State, op: Byte, dst: Byte, src: Byte, off: Int16)
    returns (t': State)
    requires At(prog, env, s, n, t) && Fetches(prog, t)
    requires JumpOp(op) && prog[t.pc] == JmpReg(op, dst, src, off)
    ensures At(prog, env, s, n + 1, t')
    ensures t' == t.(pc := t.pc + 1 + if EvalJmpCond(t.regs[dst], t.regs[src], op, false) then off else 0)
  {
    hide At, Class, Op, Src, EvalJmpCond, ToU32;
    OpcodeFields(BPF_JMP, op, BPF_X);
    t' := DoJump(prog, env, s, n, t);
  }

  lemma DoJmpImm(prog: seq<BpfInsn>, env: Env, s: State, n: nat, t: State, op: Byte, dst: Byte, imm: Int32, off: Int16)
    returns (t': State)
    requires At(prog, env, s, n, t) && Fetches(prog, t)
    requires JumpOp(op) && prog[t.pc] == JmpImm(op, dst, imm, off)
    ensures At(prog, env, s, n + 1, t')
    ensures t' == t.(pc := t.pc + 1 + if EvalJmpCond(t.regs[dst], ToU64(imm), op, false) then off else 0)
  {
    hide At, Class, Op, Src, EvalJmpCond, ToU32, ToU64;
    OpcodeFields(BPF_JMP, op, BPF_K);
    t' := DoJump(prog, env, s, n, t);
  }

  lemma DoJmp32Imm(prog: seq<BpfInsn>, env: Env, s: State, n: nat, t: State, op: Byte, dst: Byte, imm: Int32, off: Int16)
    returns (t': State)
    requires At(prog, env, s, n, t) && Fetches(prog, t)
    requires JumpOp(op) && prog[t.pc] == Jmp32Imm(op, dst, imm, off)
    ensures At(prog, env, s, n + 1, t')
    ensures t' == t.(pc := t.pc + 1 + if EvalJmpCond(ToU32(t.regs[dst]), ToU32(imm), op, true) then off else 0)
  {
    hide At, Class, Op, Src, EvalJmpCond, ToU32, ToU64;
    OpcodeFields(BPF_JMP32, op, BPF_K);
    t' := DoJump(prog, env, s, n, t);
  }

  lemma DoJa(prog: seq<BpfInsn>, env: Env, s: State, n: nat, t: State, off: Int16)
    returns (t': State)
    requires At(prog, env, s, n, t) && Fetches(prog, t) && prog[t.pc] == Ja(off)
    ensures At(prog, env, s, n + 1, t') && t' == t.(pc := t.pc + 1 + off)
  {
    hide At, BitAnd, Signed;
    t' := DoJmpImm(prog, env, s, n, t, BPF_JA, 0, 0, off);
  }

  lemma DoExit(prog: seq<BpfInsn>, env: Env, s: State, n: nat, t: State)
    requires At(prog, env, s, n, t) && Fetches(prog, t) && prog[t.pc] == ExitInsn()
    ensures Run(prog, env, s, n + 1) == Exited(t.regs[0])
  {
    hide Iter, Class, Op, Src, JumpTaken, ExecAlu, ExecLoad, ExecStore, ProbeRead;
    OpcodeFields(BPF_JMP, BPF_EXIT, BPF_K);
    DoStep(prog, env, s, n, t);
  }

  lemma FrameAddressing(env: Env, off: int, size: nat)
    requires -STACK_SIZE <= off && off + size <= 0
    ensures InFrame(env, Plus(env.fp, off), size)
    ensures FrameIndex(env, Plus(env.fp, off)) == STACK_SIZE + off
  {
    if off < 0 {
      assert (env.fp + off) % TWO64 == env.fp + off;
    }
  }

  // ----- memory -----

  /** A load or store through R10 stays in the frame. */
  lemma DoLdx(prog: seq<BpfInsn>, env: Env, s: State, n: nat, t: State,
              size: Byte, dst: Byte, off: Int16)
    returns (t': State)
    requires At(prog, env, s, n, t) && Fetches(prog, t) && t.regs[10] == env.fp
    requires size in {BPF_B, BPF_H, BPF_W, BPF_DW} && prog[t.pc] == LdxMem(size, dst, REG_FP, off)
    requires -STACK_SIZE <= off && off + AccessBytes(size) <= 0
    ensures At(prog, env, s, n + 1, t')
    ensures t' == SetReg(t, dst, ToU64(LoadFrame(env.bigEndian, t.frame, STACK_SIZE + off, AccessBytes(size))))
  {
    hide Iter, Class, Op, Src, Size, Mode, ExecAlu, ExecJmp, ExecStore, InFrame, FrameIndex, LoadFrame, ToU64;
    MemFields(BPF_LDX, size);
    DoStep(prog, env, s, n, t);
    FrameAddressing(env, off, AccessBytes(size));
    t' := Step(prog, env, t).state;
  }

  lemma DoStx(prog: seq<BpfInsn>, env: Env, s: State, n: nat, t: State,
              size: Byte, src: Byte, off: Int16)
    returns (t': State)
    requires At(prog, env, s, n, t) && Fetches(prog, t) && t.regs[10] == env.fp
    requires size in {BPF_B, BPF_H, BPF_W, BPF_DW} && prog[t.pc] == StxMem(size, REG_FP, src, off)
    requires -STACK_SIZE <= off && off + AccessBytes(size) <= 0
    ensures At(prog, env, s, n + 1, t')
    ensures t' == Next(t).(frame := StoreFrame(t.frame, STACK_SIZE + off,
      Encode(env.bigEndian, t.regs[src] % Pow256(AccessBytes(size)), AccessBytes(size))))
  {
    hide Iter, Class, Op, Src, Size, Mode, ExecAlu, ExecJmp, ExecLoad, InFrame, FrameIndex, StoreFrame, ToU64,
      Encode, Pow256;
    MemFields(BPF_STX, size);
    DoStep(prog, env, s, n, t);
    FrameAddressing(env, off, AccessBytes(size));
    t' := Step(prog, env, t).state;
  }

  /** A probe read of `size` bytes to frame position `at`: R0 tells whether it succeeded. */
  lemma DoProbe(prog: seq<BpfInsn>, env: Env, s: State, n: nat, t: State, at: int, size: nat)
    returns (t': State, bytes: seq<Byte>)
    requires At(prog, env, s, n, t) && Fetches(prog, t)
    requires prog[t.pc] == EmitCall(BPF_FUNC_probe_read_kernel)
    requires 0 <= at && at + size <= STACK_SIZE
    requires t.regs[1] == env.fp - STACK_SIZE + at && t.regs[2] == size
    ensures At(prog, env, s, n + 1, t') && t'.pc == t.pc + 1
    ensures forall r {:trigger t'.regs[r]} | 6 <= r < 11 :: t'.regs[r] == t.regs[r]
    ensures (t'.regs[0] == 0) == Mapped(env, t.regs[3], size)
    ensures |bytes| == size && t'.frame == StoreFrame(t.frame, at, bytes)
    ensures Mapped(env, t.regs[3], size) ==> bytes == KernelBytes(env, t.regs[3], size)
  {
    hide Iter, Class, Op, Src, JumpTaken, ExecAlu, ExecLoad, ExecStore, StoreFrame, Mapped, KernelBytes;
    OpcodeFields(BPF_JMP, BPF_CALL, BPF_K);
    DoStep(prog, env, s, n, t);
    t' := Step(prog, env, t).state;
    assert FrameIndex(env, t.regs[1]) == at;
    bytes := if Mapped(env, t.regs[3], size) then KernelBytes(env, t.regs[3], size) else seq(size, _ => 0);
  }
}
