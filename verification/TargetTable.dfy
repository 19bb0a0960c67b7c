/** The target machine by opcode number, for every opcode a converted filter contains: sections 4.1 to 4.3 and 5.1 of
    RFC 9669, and helper 113. What the opcode fields of `Opcodes` add up to is stated here in plain numbers. */
module TargetTable {
  import opened Words
  import opened Opcodes
  import opened Alu
  import opened Ebpf
  import opened Rules
  import opened Cbpf
  import opened Blocks
  import opened ClassicTable

  function Wrapped(n: int): Word64 { n % 0x1_0000_0000_0000_0000 }

  function Address(from: Word64, j: int): Word64 { Wrapped(from + j) }

  /** The next state with a new destination register, in 64 bits or in 32. */
  function Put64(s: State, insn: BpfInsn, v: int): Config
    requires insn.dst < 11
  {
    Running(State(s.pc + 1, s.regs[insn.dst := Wrapped(v)], s.frame))
  }

  function Put32(s: State, insn: BpfInsn, v: int): Config
    requires insn.dst < 11
  {
    Running(State(s.pc + 1, s.regs[insn.dst := v % 0x1_0000_0000], s.frame))
  }

  /** The 32-bit arithmetic instructions, which a filter takes over from the classic program. */
  function Put32Op(s: State, insn: BpfInsn, b: Word32): Config
    requires insn.dst < 11 && insn.src < 11 && AluNumber(insn.code)
  {
    var a: Word32 := s.regs[insn.dst] % 0x1_0000_0000;
    Put32(s, insn,
          if insn.code in {0x34, 0x3c} && b == 0 then 0
          else if insn.code in {0x94, 0x9c} && b == 0 then a
          else Computed(insn.code, a, b))
  }

  /** The low two or four bytes of a register, read most significant first out of a host's memory. */
  function NetworkOrder(bigEndian: bool, v: Word64, imm: Int32): int {
    var b0, b1, b2, b3 := v % 0x100, v / 0x100 % 0x100, v / 0x1_0000 % 0x100, v / 0x100_0000 % 0x100;
    if imm == 16 then if bigEndian then 0x100 * b1 + b0 else 0x100 * b0 + b1
    else if imm == 32 then
      if bigEndian then 0x100_0000 * b3 + 0x1_0000 * b2 + 0x100 * b1 + b0
      else 0x100_0000 * b0 + 0x1_0000 * b1 + 0x100 * b2 + b3
    else 0
  }

  function LoadFrom(env: Env, s: State, insn: BpfInsn, size: nat): Config
    requires insn.dst < 11 && insn.src < 11 && size <= 8
  {
    var at := Address(s.regs[insn.src], insn.off) - (env.fp - 512);
    if 0 <= at && at + size <= 512 then Put64(s, insn, Decode(env.bigEndian, s.frame[at..at + size])) else Fault
  }

  function StoreTo(env: Env, s: State, insn: BpfInsn, size: nat): Config
    requires insn.dst < 11 && insn.src < 11 && size <= 8
  {
    var at := Address(s.regs[insn.dst], insn.off) - (env.fp - 512);
    if 0 <= at && at + size <= 512 then
      Running(State(s.pc + 1, s.regs, s.frame[..at] +
        Encode(env.bigEndian, s.regs[insn.src] % (if size == 4 then 0x1_0000_0000 else 0x1_0000_0000_0000_0000), size) +
        s.frame[at + size..]))
    else Fault
  }

  /** Helper 113 copies R2 bytes from R3 to R1 and answers 0, or zeroes them and answers -14; either way R1 to R5 are
      lost and R6 to R10 stay. */
  function HelperCopy(env: Env, s: State): Config {
    var at, size, from := s.regs[1] - (env.fp - 512), s.regs[2], s.regs[3];
    var ok := forall j | 0 <= j < size :: Address(from, j) in env.memory;
    if !(0 <= at && at + size <= 512) then Fault else
    var bytes: seq<Byte> :=
      if ok then seq(size, j requires 0 <= j < size => env.memory[Address(from, j)]) else seq(size, _ => 0);
    var r := s.regs;
    Running(State(s.pc + 1,
      [if ok then 0 else 0xffff_ffff_ffff_fff2, env.clobber(1, s.pc), env.clobber(2, s.pc), env.clobber(3, s.pc),
       env.clobber(4, s.pc), env.clobber(5, s.pc), r[6], r[7], r[8], r[9], r[10]],
      s.frame[..at] + bytes + s.frame[at + size..]))
  }

  predicate ListedNumber(code: Byte) {
    AluNumber(code) ||
    code in {0x05, 0x07, 0x0f, 0x15, 0x1d, 0x1f, 0x25, 0x2d, 0x35, 0x3d, 0x45, 0x4d, 0x55, 0x5d, 0x61, 0x63, 0x69, 0x71,
             0x79, 0x7b, 0x85, 0x95, 0xa5, 0xad, 0xb4, 0xb5, 0xb7, 0xbc, 0xbd, 0xbf, 0xc6, 0xdc}
  }

  /** Whether the jumps are taken. */
  predicate Taken(s: State, insn: BpfInsn)
    requires insn.dst < 11 && insn.src < 11
  {
    var d, r, imm := s.regs[insn.dst], s.regs[insn.src], insn.imm;
    var imm64 := Wrapped(imm);
    match insn.code {
      case 0x05 => true
      case 0x15 => d == imm64
      case 0x1d => d == r
      case 0x25 => d > imm64
      case 0x2d => d > r
      case 0x35 => d >= imm64
      case 0x3d => d >= r
      case 0x45 => BitAnd(d, imm64) != 0
      case 0x4d => BitAnd(d, r) != 0
      case 0x55 => d != imm64
      case 0x5d => d != r
      case 0xa5 => d < imm64
      case 0xad => d < r
      case 0xb5 => d <= imm64
      case 0xbd => d <= r
      case _ => AsSigned(d % 0x1_0000_0000) < imm
    }
  }

  /** What each opcode does with destination value d, source value r and immediate imm. */
  function ByNumber(env: Env, s: State, insn: BpfInsn): Config
    requires insn.dst < 11 && insn.src < 11 && ListedNumber(insn.code)
  {
    var d, r, imm := s.regs[insn.dst], s.regs[insn.src], insn.imm;
    match insn.code {
      case 0x05 | 0x15 | 0x1d | 0x25 | 0x2d | 0x35 | 0x3d | 0x45 | 0x4d | 0x55 | 0x5d | 0xa5 | 0xad | 0xb5 | 0xbd |
           0xc6 =>
        Running(State(s.pc + 1 + if Taken(s, insn) then insn.off else 0, s.regs, s.frame))
      case 0x07 => Put64(s, insn, d + imm)
      case 0x0f => Put64(s, insn, d as int + r as int)
      case 0x1f => Put64(s, insn, d as int - r as int)
      case 0xb4 => Put32(s, insn, imm)
      case 0xb7 => Put64(s, insn, imm)
      case 0xbc => Put32(s, insn, r)
      case 0xbf => Put64(s, insn, r)
      case 0xdc => Put32(s, insn, NetworkOrder(env.bigEndian, d, imm))
      case 0x61 => LoadFrom(env, s, insn, 4)
      case 0x69 => LoadFrom(env, s, insn, 2)
      case 0x71 => LoadFrom(env, s, insn, 1)
      case 0x79 => LoadFrom(env, s, insn, 8)
      case 0x63 => StoreTo(env, s, insn, 4)
      case 0x7b => StoreTo(env, s, insn, 8)
      case 0x85 => if insn.src == 0 && imm == 113 then HelperCopy(env, s) else Fault
      case 0x95 => Exited(s.regs[0])
      case _ => Put32Op(s, insn, if insn.code % 16 == 12 then r % 0x1_0000_0000 else imm % 0x1_0000_0000)
    }
  }

  // ----- the machine decodes every listed opcode as listed -----

  predicate JumpNumber(code: Byte) {
    code in {0x05, 0x15, 0x1d, 0x25, 0x2d, 0x35, 0x3d, 0x45, 0x4d, 0x55, 0x5d, 0xa5, 0xad, 0xb5, 0xbd, 0xc6}
  }

  lemma JumpFields(code: Byte)
    requires JumpNumber(code)
    ensures Class(code) == (if code == 0xc6 then BPF_JMP32 else BPF_JMP) && Op(code) == code / 16 * 16
    ensures Src(code) == (if code % 16 == 13 then BPF_X else BPF_K)
  {
  }

  lemma ComparisonByNumber(d: Word64, b: Word64)
    ensures EvalJmpCond(d, b, 0x00, false) && (EvalJmpCond(d, b, 0x10, false) <==> d == b)
    ensures (EvalJmpCond(d, b, 0x20, false) <==> d > b) && (EvalJmpCond(d, b, 0x30, false) <==> d >= b)
    ensures (EvalJmpCond(d, b, 0x40, false) <==> BitAnd(d, b) != 0) && (EvalJmpCond(d, b, 0x50, false) <==> d != b)
    ensures (EvalJmpCond(d, b, 0xa0, false) <==> d < b) && (EvalJmpCond(d, b, 0xb0, false) <==> d <= b)
  {
    hide BitAnd, Signed;
  }

  lemma SignedComparison(d: Word64, imm: Int32)
    ensures EvalJmpCond(ToU32(d), ToU32(imm), 0xc0, true) <==> AsSigned(d % 0x1_0000_0000) < imm
  {
    hide BitAnd;
    assert ToS32(ToU32(imm)) == imm;
  }

  lemma TakenByNumber(s: State, insn: BpfInsn)
    requires insn.dst < 11 && insn.src < 11 && JumpNumber(insn.code)
    ensures JumpTaken(s.regs, insn) == Taken(s, insn)
  {
    hide Class, Op, Src, BitAnd, EvalJmpCond, ToU32, AsSigned;
    JumpFields(insn.code);
    SignedComparison(s.regs[insn.dst], insn.imm);
    ComparisonByNumber(s.regs[insn.dst], if insn.code % 16 == 13 then s.regs[insn.src] else Wrapped(insn.imm));
  }

  lemma JumpStep(env: Env, s: State, insn: BpfInsn)
    requires insn.dst < 11 && insn.src < 11 && JumpNumber(insn.code)
    ensures Exec(env, s, insn) == ByNumber(env, s, insn)
  {
    hide Class, Op, Src, JumpTaken, Taken, ExecAlu, ExecLoad, ExecStore, ProbeRead;
    JumpFields(insn.code);
    TakenByNumber(s, insn);
  }

  predicate RegisterNumber(code: Byte) { code in {0x07, 0x0f, 0x1f, 0xb4, 0xb7, 0xbc, 0xbf} }

  lemma OpFields(code: Byte)
    requires AluNumber(code)
    ensures Class(code) == BPF_ALU && Op(code) != BPF_END
    ensures Src(code) == (if code % 16 == 12 then BPF_X else BPF_K)
  {
  }

  lemma RegisterFields(code: Byte)
    requires RegisterNumber(code)
    ensures Class(code) == (if code in {0x07, 0x0f, 0x1f, 0xb7, 0xbf} then BPF_ALU64 else BPF_ALU)
    ensures Op(code) == (if code in {0x07, 0x0f} then BPF_ADD else if code == 0x1f then BPF_SUB else BPF_MOV)
    ensures Src(code) == (if code in {0x0f, 0x1f, 0xbc, 0xbf} then BPF_X else BPF_K)
  {
  }

  lemma AluStep(env: Env, s: State, insn: BpfInsn)
    requires insn.dst < 11 && insn.src < 11 && (AluNumber(insn.code) || RegisterNumber(insn.code))
    ensures var is64, src := Class(insn.code) == BPF_ALU64, GetSrcVal(s.regs, insn, Class(insn.code) == BPF_ALU64);
      Exec(env, s, insn) == Running(SetReg(s, insn.dst, AluResult(is64, Op(insn.code), s.regs[insn.dst], src)))
  {
    hide Class, Op, Src, AluResult, GetSrcVal, ExecJmp, ExecLoad, ExecStore, ByteOrder, AluNumber, RegisterNumber;
    if AluNumber(insn.code) {
      OpFields(insn.code);
    } else {
      RegisterFields(insn.code);
    }
  }

  lemma WrappedSame(n: int)
    ensures ToU64(n) == Wrapped(n) && ToU32(n) == n % 0x1_0000_0000
  {
  }

  lemma RegisterResults(d: Word64, r: Word64, imm: Int32)
    ensures AluResult(true, BPF_MOV, d, r) == Wrapped(r) && AluResult(true, BPF_MOV, d, ToU64(imm)) == Wrapped(imm)
    ensures AluResult(false, BPF_MOV, d, ToU32(r)) == r % 0x1_0000_0000
    ensures AluResult(false, BPF_MOV, d, ToU32(imm)) == imm % 0x1_0000_0000
    ensures AluResult(true, BPF_ADD, d, r) == Wrapped(d as int + r as int)
    ensures AluResult(true, BPF_ADD, d, ToU64(imm)) == Wrapped(d + imm)
    ensures AluResult(true, BPF_SUB, d, r) == Wrapped(d as int - r as int)
  {
    hide AluResult, ToU64, ToU32;
    WrappedSame(r);
    WrappedSame(imm);
    WrappedSame(d as int + r as int);
    WrappedSame(d as int - r as int);
    WrappedSame(d + imm);
    U64Same(r);
    U32Same(ToU32(r));
    U32Same(ToU32(imm));
    MovResult(true, d, r);
    MovResult(true, d, ToU64(imm));
    MovResult(false, d, ToU32(r));
    MovResult(false, d, ToU32(imm));
    AddResult(true, d, r);
    AddResult(true, d, ToU64(imm));
    SubResult(d, r);
    U64SumReduced(d, imm);
  }

  lemma RegisterStep(env: Env, s: State, insn: BpfInsn)
    requires insn.dst < 11 && insn.src < 11 && RegisterNumber(insn.code)
    ensures Exec(env, s, insn) == ByNumber(env, s, insn)
  {
    hide Class, Op, Src, Exec, AluResult, ToU32, ToU64, Wrapped;
    RegisterFields(insn.code);
    AluStep(env, s, insn);
    RegisterResults(s.regs[insn.dst], s.regs[insn.src], insn.imm);
  }

  /** The 32-bit result, truncated, is the classic one; dividing by 0 gives 0 and the remainder by 0 is the dividend. */
  lemma ResultByNumber(code: Byte, a: Word32, b: Word32)
    requires AluNumber(code)
    ensures AluResult(false, Op(code), a, b) == (
      if code in {0x34, 0x3c} && b == 0 then 0
      else if code in {0x94, 0x9c} && b == 0 then a
      else Computed(code, a, b)) % 0x1_0000_0000
  {
    hide AluResult, Computed, Arith, Op;
    AluOps(code);
    if code in {0x34, 0x3c, 0x94, 0x9c} && b == 0 {
      DivideByZero(a);
    } else {
      ArithmeticAgrees(Op(code), a, b);
      ArithByNumber(code, a, b);
    }
  }

  lemma DivideByZero(a: Word32)
    ensures AluResult(false, BPF_DIV, a, 0) == 0 && AluResult(false, BPF_MOD, a, 0) == a
  {
  }

  lemma NarrowResult(op: nat, d: Word64, b: Word32)
    ensures AluResult(false, op, d, b) == AluResult(false, op, d % 0x1_0000_0000, b)
  {
    hide AluRaw;
  }

  lemma OpStep(env: Env, s: State, insn: BpfInsn)
    requires insn.dst < 11 && insn.src < 11 && AluNumber(insn.code)
    ensures Exec(env, s, insn) == ByNumber(env, s, insn)
  {
    hide Class, Op, Src, Exec, AluResult, Computed;
    OpFields(insn.code);
    AluStep(env, s, insn);
    var b := GetSrcVal(s.regs, insn, false);
    NarrowResult(Op(insn.code), s.regs[insn.dst], b);
    ResultByNumber(insn.code, s.regs[insn.dst] % 0x1_0000_0000, b);
  }

  predicate MemoryNumber(code: Byte) { code in {0x61, 0x63, 0x69, 0x71, 0x79, 0x7b} }

  lemma MemoryFields(code: Byte)
    requires MemoryNumber(code)
    ensures Class(code) == (if code in {0x63, 0x7b} then BPF_STX else BPF_LDX) && Mode(code) == BPF_MEM
    ensures AccessBytes(code) == (if code in {0x79, 0x7b} then 8 else if code in {0x61, 0x63} then 4
                                  else if code == 0x69 then 2 else 1)
  {
  }

  lemma LoadSame(env: Env, s: State, insn: BpfInsn)
    requires insn.dst < 11 && insn.src < 11 && AccessBytes(insn.code) <= 8
    ensures ExecLoad(env, s, insn) == LoadFrom(env, s, insn, AccessBytes(insn.code))
  {
    hide Decode, AccessBytes;
  }

  lemma StoreSame(env: Env, s: State, insn: BpfInsn)
    requires insn.dst < 11 && insn.src < 11 && (AccessBytes(insn.code) == 4 || AccessBytes(insn.code) == 8)
    ensures ExecStore(env, s, insn) == StoreTo(env, s, insn, AccessBytes(insn.code))
  {
    hide Encode, Pow256, AccessBytes;
    Pow256Small();
  }

  lemma MemoryStep(env: Env, s: State, insn: BpfInsn)
    requires insn.dst < 11 && insn.src < 11 && MemoryNumber(insn.code)
    ensures Exec(env, s, insn) == ByNumber(env, s, insn)
  {
    hide Class, Mode, AccessBytes, ExecAlu, ExecJmp, ExecLoad, ExecStore, LoadFrom, StoreTo;
    MemoryFields(insn.code);
    if insn.code in {0x63, 0x7b} {
      StoreSame(env, s, insn);
    } else {
      LoadSame(env, s, insn);
    }
  }

  lemma TwoDigits(v: nat)
    ensures v % 0x1_0000 == 0x100 * (v / 0x100 % 0x100) + v % 0x100
    ensures v / 0x1_0000 == v / 0x100 / 0x100
  {
  }

  lemma TwoHalves(v: nat)
    ensures v % 0x1_0000_0000 == 0x1_0000 * (v / 0x1_0000 % 0x1_0000) + v % 0x1_0000
    ensures v / 0x100_0000 == v / 0x1_0000 / 0x100
  {
  }

  lemma Digits(v: Word64)
    ensures v % 0x1_0000 == 0x100 * (v / 0x100 % 0x100) + v % 0x100
    ensures v % 0x1_0000_0000 ==
      0x100_0000 * (v / 0x100_0000 % 0x100) + 0x1_0000 * (v / 0x1_0000 % 0x100) + v % 0x1_0000
  {
    TwoDigits(v);
    TwoHalves(v);
    TwoDigits(v / 0x1_0000);
  }

  lemma EncodedDigits(b0: Byte, b1: Byte, b2: Byte, b3: Byte)
    ensures EncodeLE(0x100 * b1 as int + b0 as int, 2) == [b0, b1]
    ensures EncodeLE(0x100_0000 * b3 as int + 0x1_0000 * b2 as int + 0x100 * b1 as int + b0 as int, 4) == [b0, b1, b2, b3]
  {
    EncodeDecodeLE([b0, b1]);
    LittleEndianSum([b0, b1]);
    EncodeDecodeLE([b0, b1, b2, b3]);
    LittleEndianSum([b0, b1, b2, b3]);
  }

  lemma SwappedHalf(bigEndian: bool, v: Word64)
    ensures FromBE(bigEndian, v % 0x1_0000, 2) == NetworkOrder(bigEndian, v, 16) < 0x1_0000
  {
    hide EncodeLE, DecodeBE, Pow256;
    Pow256Small();
    Digits(v);
    var b0, b1 := v % 0x100, v / 0x100 % 0x100;
    EncodedDigits(b0, b1, 0, 0);
    BigEndianSum([b0, b1]);
  }

  lemma SwappedWord(bigEndian: bool, v: Word64)
    ensures FromBE(bigEndian, v % 0x1_0000_0000, 4) == NetworkOrder(bigEndian, v, 32) < 0x1_0000_0000
  {
    hide EncodeLE, DecodeBE, Pow256;
    Pow256Small();
    Digits(v);
    var b0, b1, b2, b3 := v % 0x100, v / 0x100 % 0x100, v / 0x1_0000 % 0x100, v / 0x100_0000 % 0x100;
    EncodedDigits(b0, b1, b2, b3);
    BigEndianSum([b0, b1, b2, b3]);
  }

  lemma SwappedBytes(bigEndian: bool, v: Word64, imm: Int32)
    ensures NetworkOrder(bigEndian, v, imm) % 0x1_0000_0000 ==
      if imm == 16 then FromBE(bigEndian, v % 0x1_0000, 2) % 0x1_0000_0000
      else if imm == 32 then FromBE(bigEndian, v % 0x1_0000_0000, 4) % 0x1_0000_0000
      else 0
  {
    hide FromBE;
    SwappedHalf(bigEndian, v);
    SwappedWord(bigEndian, v);
  }

  lemma OrderStep(env: Env, s: State, insn: BpfInsn)
    requires insn.dst < 11 && insn.src < 11 && insn.code == 0xdc
    ensures Exec(env, s, insn) == ByNumber(env, s, insn)
  {
    hide AluResult, GetSrcVal, ExecJmp, ExecLoad, ExecStore, FromBE, Pow256, NetworkOrder;
    Pow256Small();
    SwappedBytes(env.bigEndian, s.regs[insn.dst], insn.imm);
  }

  lemma ProbedSame(env: Env, from: Word64, size: nat)
    ensures Mapped(env, from, size) <==> forall j | 0 <= j < size :: Address(from, j) in env.memory
    ensures forall j :: Address(from, j) == Plus(from, j)
  {
    forall j ensures Address(from, j) == Plus(from, j) {
    }
  }

  lemma ProbedRegs(env: Env, s: State, result: Word64)
    ensures var r := s.regs;
      AfterCall(env, s, result) ==
        [result, env.clobber(1, s.pc), env.clobber(2, s.pc), env.clobber(3, s.pc), env.clobber(4, s.pc),
         env.clobber(5, s.pc), r[6], r[7], r[8], r[9], r[10]]
  {
  }

  lemma ProbeStep(env: Env, s: State)
    ensures ProbeRead(env, s) == HelperCopy(env, s)
  {
    hide Mapped, Address, Plus, AfterCall;
    var size, from := s.regs[2], s.regs[3];
    ProbedSame(env, from, size);
    ProbedRegs(env, s, 0);
    ProbedRegs(env, s, TWO64 - EFAULT);
    if Mapped(env, from, size) {
      assert KernelBytes(env, from, size) == seq<Byte>(size, j requires 0 <= j < size => env.memory[Address(from, j)]);
    }
  }

  /** The machine does what the table says. */
  lemma StepByNumber(env: Env, s: State, insn: BpfInsn)
    requires insn.dst < 11 && insn.src < 11 && ListedNumber(insn.code)
    ensures Exec(env, s, insn) == ByNumber(env, s, insn)
  {
    hide Exec, ByNumber, AluNumber;
    if AluNumber(insn.code) {
      OpStep(env, s, insn);
    } else if JumpNumber(insn.code) {
      JumpStep(env, s, insn);
    } else if RegisterNumber(insn.code) {
      RegisterStep(env, s, insn);
    } else if insn.code in {0x61, 0x63, 0x69, 0x71, 0x79, 0x7b} {
      MemoryStep(env, s, insn);
    } else if insn.code == 0xdc {
      OrderStep(env, s, insn);
    } else {
      CallOrExitStep(env, s, insn);
    }
  }

  lemma CallOrExitStep(env: Env, s: State, insn: BpfInsn)
    requires insn.dst < 11 && insn.src < 11 && insn.code in {0x85, 0x95}
    ensures Exec(env, s, insn) == ByNumber(env, s, insn)
  {
    hide ExecAlu, ExecLoad, ExecStore, JumpTaken, ProbeRead, HelperCopy;
    ProbeStep(env, s);
  }

  /** What counts as a jump: the two jump classes without calls and EXIT. */
  lemma JumpsByNumber(insn: BpfInsn)
    ensures IsJump(insn) <==> insn.code % 8 in {5, 6} && insn.code / 16 !in {8, 9}
  {
  }
}
