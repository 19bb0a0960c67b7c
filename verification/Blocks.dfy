/** Each block does one step of the classic machine: one lemma per case of the converter's switch. */
module Blocks {
  import opened Words
  import opened Opcodes
  import opened Alu
  import opened Ebpf
  import opened Macros
  import opened Cbpf
  import opened Translation
  import opened Rules
  import opened PacketLoads
  import opened Frames

  /** R0 at EXIT: the classic verdict as 0 or 1. */
  function Verdict(value: Word32): Word64 { if value != 0 then 1 else 0 }

  /** A block at `at` took `n` steps to do what `outcome` says; falling through leads to the block's end. */
  predicate DoesReturn(prog: seq<BpfInsn>, env: Env, t: State, n: nat, value: Word32) {
    n > 0 && Run(prog, env, t, n) == Exited(Verdict(value))
  }

  predicate DoesStep(prog: seq<BpfInsn>, env: Env, t: State, n: nat, s': CState, t': State, pc': int) {
    n > 0 && At(prog, env, t, n, t') && Represents(env, s', t') && t'.pc == pc'
  }

  // ----- arithmetic -----

  /** The truncated machine operation is the classic one. */
  lemma ArithmeticAgrees(op: nat, a: Word32, b: Word32)
    requires op in {BPF_ADD, BPF_SUB, BPF_MUL, BPF_DIV, BPF_MOD, BPF_NEG, BPF_AND, BPF_OR, BPF_XOR, BPF_LSH, BPF_RSH}
    requires op == BPF_DIV || op == BPF_MOD ==> b != 0
    ensures AluResult(false, op, a, b) == Arith(op, a, b)
  {
    hide BitAnd, BitOr, BitXor, Pow2, ToU32;
    U32Same(a);
    U32Same(b);
    if op == BPF_ADD {
      U32Sum(a, b);
    } else if op == BPF_OR || op == BPF_XOR {
      U32Same(Or32(a, b));
      U32Same(Xor32(a, b));
    } else if op == BPF_SUB || op == BPF_NEG {
      U32Difference(a, b);
      U32Difference(0, a);
    } else if op == BPF_MUL || op == BPF_LSH {
      U32Reduced(a * b);
      U32Reduced(a * Pow2(b % 32));
    } else if op == BPF_DIV {
      U32Same(Quotient32(a, b));
    } else if op == BPF_MOD {
      RemainderIsWord(a, b);
    } else if op == BPF_RSH {
      U32Same(Quotient32(a, Pow2(b % 32)));
    } else if op == BPF_AND {
      U32Same(BitAnd(a, b));
    }
  }

  lemma U32Difference(a: Word32, b: Word32)
    ensures ToU32(a - b) == if a >= b then a - b else a - b + TWO32
  {
  }

  lemma U32Reduced(n: nat)
    ensures ToU32(n) == n % TWO32
  {
  }

  lemma RemainderIsWord(a: Word32, b: Word32)
    requires b > 0
    ensures ToU32(a % b) == a % b
  {
  }

  lemma AluOpcode(code: Word16)
    requires IsAlu(code)
    ensures Class(code) == BPF_ALU && Op(code) != BPF_END && (Src(code) == BPF_K || Src(code) == BPF_X)
  {
  }

  lemma DoAluInsn(prog: seq<BpfInsn>, env: Env, s: State, n: nat, t: State, f: SockFilter) returns (t': State)
    requires At(prog, env, s, n, t) && Fetches(prog, t) && IsAlu(f.code) && prog[t.pc] == AluInsn(f)
    requires t.regs[0] < TWO32 && t.regs[7] < TWO32
    ensures At(prog, env, s, n + 1, t')
    ensures t' == SetReg(t, 0, AluResult(false, Op(f.code), t.regs[0], if Src(f.code) == BPF_X then t.regs[7] else f.k))
  {
    hide At, AluResult, Class, Op, Src, ToU32, ToS32;
    AluOpcode(f.code);
    U32OfS32(f.k);
    U32Same(t.regs[7]);
    t' := DoAlu(prog, env, s, n, t, false);
  }

  lemma DivisionGuard(prog: seq<BpfInsn>, env: Env, at: int, t: State) returns (n: nat, t': State)
    requires CodeAt(prog, at, [Mov32Reg(REG_X, REG_X), JmpImm(BPF_JNE, REG_X, 0, 2)] + EpilogueFail())
    requires t.pc == at && t.regs[7] < TWO32
    ensures if t.regs[7] == 0 then DoesReturn(prog, env, t, n, 0)
            else At(prog, env, t, n, t') && t' == t.(pc := at + 4)
  {
    hide Exec, Iter, EpilogueFail;
    CodeAtSplit(prog, at, [Mov32Reg(REG_X, REG_X), JmpImm(BPF_JNE, REG_X, 0, 2)], EpilogueFail());
    Fetch(prog, at, [Mov32Reg(REG_X, REG_X), JmpImm(BPF_JNE, REG_X, 0, 2)]);
    Begin(prog, env, t);
    U32Same(t.regs[7]);
    var t1 := DoMov32Reg(prog, env, t, 0, t, 7, 7);
    assert t1.regs == t.regs;
    t' := DoJmpImm(prog, env, t, 1, t1, BPF_JNE, 7, 0, 2);
    n := 2;
    if t.regs[7] == 0 {
      FailPart(prog, env, at + 2, t');
      Concat(prog, env, t, 2, t', 2);
      n := 4;
    }
  }

  lemma AluBlockRuns(prog: seq<BpfInsn>, env: Env, at: int, f: SockFilter, s: CState, t: State)
    returns (n: nat, t': State)
    requires IsAlu(f.code) && LegalInsn(f) && CodeAt(prog, at, AluBlock(f)) && t.pc == at && Represents(env, s, t)
    ensures match ExecC(PacketOf(env), s, f)
      case Going(s') => s'.pc == s.pc + 1 && DoesStep(prog, env, t, n, s', t', at + |AluBlock(f)|)
      case Returned(v) => DoesReturn(prog, env, t, n, v)
      case _ => false
  {
    hide Exec, Iter, SavedBounds, HoldsScratch, AluResult, Arith, PacketOf;
    n, t' := 0, t;
    var start := at;
    var alive := true;
    Begin(prog, env, t);
    if IsDivision(f.code) && Src(f.code) == BPF_X {
      var guard := [Mov32Reg(REG_X, REG_X), JmpImm(BPF_JNE, REG_X, 0, 2)] + EpilogueFail();
      CodeAtSplit(prog, at, guard, [AluInsn(f)]);
      n, t' := DivisionGuard(prog, env, at, t);
      start := at + 4;
      alive := t.regs[7] != 0;
    }
    if alive {
      Fetch(prog, start, [AluInsn(f)]);
      ArithmeticAgrees(Op(f.code), s.a, AluOperand(f, s));
      t' := DoAluInsn(prog, env, t, n, t', f);
      n := n + 1;
    }
  }

  // ----- packet loads -----

  lemma LoadBlockRuns(prog: seq<BpfInsn>, env: Env, at: int, f: SockFilter, s: CState, t: State)
    returns (n: nat, t': State)
    requires IsPacketLoad(f.code) && CodeAt(prog, at, PacketLoad(f.code, ToS32(f.k))) && t.pc == at
    requires Represents(env, s, t)
    ensures match ExecC(PacketOf(env), s, f)
      case Going(s') => s'.pc == s.pc + 1 && DoesStep(prog, env, t, n, s', t', at + |PacketLoad(f.code, ToS32(f.k))|)
      case Returned(v) => DoesReturn(prog, env, t, n, v)
      case _ => false
  {
    hide Exec, Iter, SavedBounds, HoldsScratch, PacketOf, PacketLoad, SameButBuffer, PacketValue;
    n, t' := PacketLoadIsExact(prog, env, at, f.code, f.k, t);
    var value := PacketValue(PacketOf(env), LoadAt(f.code, f.k, s.x), SizeBytes(f.code));
    if value.Some? {
      U32Same(value.value);
      BufferIsSeparate(env, t.frame, t'.frame, s.mem);
    }
  }

  /** X := 4*(P[k] & 0xf); the old A travels through X and R2 around the load and the helper call. */
  lemma MshBlockRuns(prog: seq<BpfInsn>, env: Env, at: int, f: SockFilter, s: CState, t: State)
    returns (n: nat, t': State)
    requires IsMsh(f.code) && CodeAt(prog, at, MshBlock(f.k)) && t.pc == at && Represents(env, s, t)
    ensures match ExecC(PacketOf(env), s, f)
      case Going(s') => s'.pc == s.pc + 1 && s'.a == s.a && DoesStep(prog, env, t, n, s', t', at + |MshBlock(f.k)|)
      case Returned(v) => DoesReturn(prog, env, t, n, v)
      case _ => false
  {
    hide Exec, Iter, SavedBounds, HoldsScratch, PacketOf, PacketLoad, SameButBuffer, PacketValue;
    var code: Word16, load := BPF_LD + BPF_ABS + BPF_B, PacketLoad(BPF_LD + BPF_ABS + BPF_B, ToS32(f.k));
    CodeAtSplit(prog, at, [Mov64Reg(REG_X, REG_A)] + load, MshTail());
    CodeAtSplit(prog, at, [Mov64Reg(REG_X, REG_A)], load);
    Fetch(prog, at, [Mov64Reg(REG_X, REG_A)]);
    Begin(prog, env, t);
    var t1 := DoMov64Reg(prog, env, t, 0, t, 7, 0);
    n, t' := PacketLoadIsExact(prog, env, at + 1, code, f.k, t1);
    Concat(prog, env, t, 1, t1, n);
    var value := PacketValue(PacketOf(env), f.k, 1);
    if value.Some? {
      BufferIsSeparate(env, t1.frame, t'.frame, s.mem);
      var m, u := MshTailRuns(prog, env, at + 1 + |load|, t', value.value);
      Concat(prog, env, t, 1 + n, t', m);
      n, t' := 1 + n + m, u;
    } else {
      n := 1 + n;
    }
  }

  lemma MshTailRuns(prog: seq<BpfInsn>, env: Env, at: int, t: State, v: nat) returns (n: nat, t': State)
    requires CodeAt(prog, at, MshTail()) && t.pc == at && t.regs[0] == v < TWO32
    ensures At(prog, env, t, n, t') && t'.pc == at + 5 && t'.frame == t.frame
    ensures t'.regs[0] == t.regs[7] && t'.regs[7] == 4 * (v % 16) && t'.regs[10] == t.regs[10]
  {
    hide Exec, At, ToU32;
    Fetch(prog, at, MshTail());
    Begin(prog, env, t);
    U32Same(v);
    U32Same(v % 16);
    U32Same(v % 16 * 4);
    var t1 := DoLowNibble(prog, env, t, 0, t, 0);
    var t2 := DoTimesFour(prog, env, t, 1, t1, 0);
    var t3 := DoMov64Reg(prog, env, t, 2, t2, 2, 7);
    var t4 := DoMov64Reg(prog, env, t, 3, t3, 7, 0);
    t' := DoMov64Reg(prog, env, t, 4, t4, 0, 2);
    n := 5;
  }

  // ----- returns -----

  lemma RetBlockRuns(prog: seq<BpfInsn>, env: Env, at: int, f: SockFilter, s: CState, t: State) returns (n: nat)
    requires IsRet(f.code) && CodeAt(prog, at, RetBlock(f)) && t.pc == at && Represents(env, s, t)
    ensures ExecC(PacketOf(env), s, f).Returned? && DoesReturn(prog, env, t, n, ExecC(PacketOf(env), s, f).value)
  {
    hide Exec, At, SavedBounds, HoldsScratch, PacketOf;
    Fetch(prog, at, RetBlock(f));
    Begin(prog, env, t);
    var t1;
    if f.code == BPF_RET + BPF_K {
      t1 := DoMov32Imm(prog, env, t, 0, t, 0, if f.k != 0 then 1 else 0);
      DoExit(prog, env, t, 1, t1);
      n := 2;
    } else {
      t1 := DoJmpImm(prog, env, t, 0, t, BPF_JEQ, 0, 0, 2);
      if s.a == 0 {
        t1 := DoMov32Imm(prog, env, t, 1, t1, 0, 0);
        DoExit(prog, env, t, 2, t1);
        n := 3;
      } else {
        t1 := DoMov32Imm(prog, env, t, 1, t1, 0, 1);
        t1 := DoJa(prog, env, t, 2, t1, 1);
        DoExit(prog, env, t, 3, t1);
        n := 4;
      }
    }
  }

  // ----- moves and scratch memory -----

  lemma StoreRuns(prog: seq<BpfInsn>, env: Env, at: int, f: SockFilter, s: CState, t: State) returns (t': State)
    requires IsStore(f.code) && LegalInsn(f) && CodeAt(prog, at, [MoveInsn(f)]) && t.pc == at && Represents(env, s, t)
    ensures ExecC(PacketOf(env), s, f).Going? && ExecC(PacketOf(env), s, f).state.pc == s.pc + 1
    ensures DoesStep(prog, env, t, 1, ExecC(PacketOf(env), s, f).state, t', at + 1)
  {
    hide Exec, At, SavedBounds, HoldsScratch, StoreFrame, Encode, ScratchOff, PacketOf, Pow256;
    Fetch(prog, at, [MoveInsn(f)]);
    Begin(prog, env, t);
    ScratchOffset(f.k);
    Pow256Small();
    ScratchStore(env, t.frame, s.mem, f.k, if f.code == BPF_ST then s.a else s.x);
    t' := DoStx(prog, env, t, 0, t, BPF_W, if f.code == BPF_ST then REG_A else REG_X, ScratchOff(f.k));
    U32Same(s.a);
    U32Same(s.x);
  }

  lemma ScratchWord(env: Env, s: CState, t: State, k: nat)
    requires Represents(env, s, t) && k < BPF_MEMWORDS
    ensures LoadFrame(env.bigEndian, t.frame, ScratchAt(k), 4) == s.mem[k]
  {
  }

  lemma RegMoveRuns(prog: seq<BpfInsn>, env: Env, at: int, f: SockFilter, s: CState, t: State) returns (t': State)
    requires IsMove(f.code) && !IsStore(f.code) && LegalInsn(f)
    requires CodeAt(prog, at, [MoveInsn(f)]) && t.pc == at && Represents(env, s, t)
    ensures ExecC(PacketOf(env), s, f).Going? && ExecC(PacketOf(env), s, f).state.pc == s.pc + 1
    ensures DoesStep(prog, env, t, 1, ExecC(PacketOf(env), s, f).state, t', at + 1)
  {
    hide Exec, At, SavedBounds, HoldsScratch, LoadFrame, ScratchOff, PacketOf, ToU32, ToU64, ToS32, PacketValue,
      Arith, Condition;
    Fetch(prog, at, [MoveInsn(f)]);
    Begin(prog, env, t);
    if IsLoadMem(f.code) {
      ScratchOffset(f.k);
      ScratchWord(env, s, t, f.k);
      U64Same(s.mem[f.k]);
      t' := DoLdx(prog, env, t, 0, t, BPF_W, if Class(f.code) == BPF_LD then REG_A else REG_X, ScratchOff(f.k));
    } else if IsLoadImm(f.code) {
      U32OfS32(f.k);
      t' := DoMov32Imm(prog, env, t, 0, t, if Class(f.code) == BPF_LD then REG_A else REG_X, ToS32(f.k));
    } else if IsTax(f.code) {
      t' := DoMov64Reg(prog, env, t, 0, t, REG_X, REG_A);
    } else {
      t' := DoMov64Reg(prog, env, t, 0, t, REG_A, REG_X);
    }
  }

  // ----- jumps -----

  /** With zero upper halves the 64-bit comparison of a conditional jump is the classic 32-bit one. */
  predicate Holds(op: nat, a: Word32, operand: Word32) { EvalJmpCond(a, operand, op, false) }

  lemma ConditionsAgree(op: nat, a: Word32, operand: Word32)
    requires op == BPF_JEQ || op == BPF_JGT || op == BPF_JGE || op == BPF_JSET
    ensures Holds(op, a, operand) == Condition(op, a, operand)
    ensures Invertible(op) ==> Holds(InvertOp(op), a, operand) == !Condition(op, a, operand)
  {
    hide BitAnd;
  }

  /** A constant without its sign bit is the same number as a sign-extended immediate. */
  lemma CondOperand(k: Word32)
    ensures ToS32(k) >= 0 ==> ToU64(ToS32(k)) == k
  {
  }

  lemma SrcIsKOrX(code: nat)
    ensures Src(code) == BPF_K || Src(code) == BPF_X
  {
  }

  lemma DoCond(prog: seq<BpfInsn>, env: Env, s: State, n: nat, t: State, f: SockFilter, op: Byte, off: Int16)
    returns (t': State)
    requires At(prog, env, s, n, t) && Fetches(prog, t)
    requires JumpOp(op) && prog[t.pc] == CondInsn(f, op, off)
    requires t.regs[0] < TWO32 && t.regs[7] < TWO32 && (ViaTmp(f) ==> t.regs[2] == f.k)
    ensures At(prog, env, s, n + 1, t')
    ensures t' == t.(pc := t.pc + 1 +
      if Holds(op, t.regs[0], if Src(f.code) == BPF_X then t.regs[7] else f.k) then off else 0)
  {
    hide At, Class, Op, Src, EvalJmpCond, ToS32, ToU32, ToU64;
    CondOperand(f.k);
    SrcIsKOrX(f.code);
    OpcodeFields(BPF_JMP, op, Src(f.code));
    OpcodeFields(BPF_JMP, op, BPF_X);
    t' := DoJump(prog, env, s, n, t);
  }

  /** The operand of a conditional jump is in place: constants with the sign bit set go through R2. */
  lemma CondPrefixRuns(prog: seq<BpfInsn>, env: Env, at: int, f: SockFilter, t: State) returns (n: nat, t': State)
    requires CodeAt(prog, at, CondPrefix(f)) && t.pc == at
    ensures At(prog, env, t, n, t') && t'.pc == at + |CondPrefix(f)| && t'.frame == t.frame
    ensures t'.regs[0] == t.regs[0] && t'.regs[7] == t.regs[7] && t'.regs[10] == t.regs[10]
    ensures ViaTmp(f) ==> t'.regs[2] == f.k
  {
    hide Exec, At, ToS32, ToU32;
    Begin(prog, env, t);
    n, t' := 0, t;
    if ViaTmp(f) {
      Fetch(prog, at, CondPrefix(f));
      U32OfS32(f.k);
      t' := DoMov32Imm(prog, env, t, 0, t, 2, ToS32(f.k));
      n := 1;
    }
  }

  /** A conditional block whose jumps carry offsets `on` and `off`, in each of its three shapes. */
  function CondJumps(f: SockFilter, onTrue: Int16, onFalse: Int16): seq<BpfInsn>
    requires IsCondJmp(f.code)
  {
    if f.jf == 0 then [CondInsn(f, Op(f.code), onTrue)]
    else if f.jt == 0 && Invertible(Op(f.code)) then [CondInsn(f, InvertOp(Op(f.code)), onFalse)]
    else [CondInsn(f, Op(f.code), onTrue), Ja(onFalse)]
  }

  /** Where the jumps lead from `at`: the classic condition decides, in every shape. */
  lemma CondJumpsRun(prog: seq<BpfInsn>, env: Env, at: int, f: SockFilter, onTrue: Int16, onFalse: Int16, t: State)
    returns (n: nat, t': State)
    requires IsCondJmp(f.code) && CodeAt(prog, at, CondJumps(f, onTrue, onFalse)) && t.pc == at
    requires t.regs[0] < TWO32 && t.regs[7] < TWO32 && (ViaTmp(f) ==> t.regs[2] == f.k)
    ensures n > 0 && At(prog, env, t, n, t')
    ensures var end := at + |CondJumps(f, onTrue, onFalse)|;
      t' == t.(pc := if Condition(Op(f.code), t.regs[0], if Src(f.code) == BPF_X then t.regs[7] else f.k)
        then if f.jf != 0 && f.jt == 0 && Invertible(Op(f.code)) then end else at + 1 + onTrue
        else if f.jf == 0 then end else end + onFalse)
  {
    hide Exec, At, ToS32, BitAnd, Condition, Holds, CondInsn, InvertOp;
    Fetch(prog, at, CondJumps(f, onTrue, onFalse));
    Begin(prog, env, t);
    var op: Byte := Op(f.code);
    CondInsnRegs(f, op, onTrue);
    ConditionsAgree(op, t.regs[0], if Src(f.code) == BPF_X then t.regs[7] else f.k);
    if f.jf == 0 {
      t' := DoCond(prog, env, t, 0, t, f, op, onTrue);
      n := 1;
    } else if f.jt == 0 && Invertible(op) {
      InvertOpIsJump(op);
      CondInsnRegs(f, InvertOp(op), onFalse);
      t' := DoCond(prog, env, t, 0, t, f, InvertOp(op), onFalse);
      n := 1;
    } else {
      t' := DoCond(prog, env, t, 0, t, f, op, onTrue);
      n := 1;
      if !Holds(op, t.regs[0], if Src(f.code) == BPF_X then t.regs[7] else f.k) {
        t' := DoJa(prog, env, t, 1, t', onFalse);
        n := 2;
      }
    }
  }

  lemma CondInsnRegs(f: SockFilter, op: Byte, off: Int16)
    requires op <= 0xf0
    ensures CondInsn(f, op, off).dst < 11 && CondInsn(f, op, off).src < 11
  {
  }

  lemma InvertOpIsJump(op: nat)
    requires Invertible(op)
    ensures JumpOp(InvertOp(op))
  {
  }
}
