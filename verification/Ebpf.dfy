/** The target machine: an eBPF interpreter over eleven registers and one 512-byte stack frame. */
module Ebpf {
  import opened Words
  import opened Opcodes
  import opened Alu

  datatype BpfInsn = BpfInsn(code: Byte, dst: Byte, src: Byte, off: Int16, imm: Int32)

  const STACK_SIZE: int := 512

  type Regs = s: seq<Word64> | |s| == 11 witness seq(11, _ => 0)
  type Frame = s: seq<Byte> | |s| == STACK_SIZE witness seq(STACK_SIZE, _ => 0)
  type FrameAddress = n: Word64 | STACK_SIZE <= n witness STACK_SIZE

  /** What surrounds one invocation of a filter: the host's byte order, the packet bounds, the address just
      above the stack frame, the kernel bytes a probe read can reach, and what a helper call leaves in the
      caller-saved registers R1..R5 (any value, per register and call site). */
  datatype Env = Env(
    bigEndian: bool,
    data: Word64,
    dataEnd: Word64,
    fp: FrameAddress,
    memory: map<Word64, Byte>,
    clobber: (int, int) -> Word64)

  datatype State = State(pc: int, regs: Regs, frame: Frame)

  datatype Config =
    | Running(state: State)
    | Exited(r0: Word64)  // EXIT
    | OffEnd(r0: Word64)  // the program counter left the program
    | Fault               // a memory access outside the frame, or an instruction this machine does not have

  // ----- arithmetic -----

  function GetSrcVal(regs: Regs, insn: BpfInsn, is64: bool): Word64
    requires insn.src < 11
  {
    if Src(insn.code) == BPF_X then
      if is64 then regs[insn.src] else ToU32(regs[insn.src])
    else
      if is64 then ToU64(insn.imm) else ToU32(insn.imm)
  }

  /** Section 4.2 of RFC 9669 for 16 and 32 bits: to little-endian (source bit K) or big-endian (X) order. */
  function ByteOrder(bigEndian: bool, code: Byte, bits: Int32, dst: Word64): Word64 {
    if bits != 16 && bits != 32 then 0
    else ToU32(FromBE(bigEndian == (Src(code) == BPF_X), dst % Pow256(bits / 8), bits / 8))
  }

  function ExecAlu(bigEndian: bool, regs: Regs, insn: BpfInsn): Regs
    requires insn.dst < 11 && insn.src < 11
  {
    var is64 := Class(insn.code) == BPF_ALU64;
    var res := if Op(insn.code) == BPF_END && !is64 then
      ByteOrder(bigEndian, insn.code, insn.imm, regs[insn.dst])
    else
      AluResult(is64, Op(insn.code), regs[insn.dst], GetSrcVal(regs, insn, is64));
    regs[insn.dst := res]
  }

  // ----- jumps -----

  function Signed(n: Word64, is32: bool): int {
    if is32 then ToS32(n) else if n < TWO64 / 2 then n else n - TWO64
  }

  /** Section 4.3 of RFC 9669. */
  predicate EvalJmpCond(dst: Word64, src: Word64, op: nat, is32: bool) {
    if op == BPF_JA then true
    else if op == BPF_JEQ then dst == src
    else if op == BPF_JNE then dst != src
    else if op == BPF_JGT then dst > src
    else if op == BPF_JGE then dst >= src
    else if op == BPF_JLT then dst < src
    else if op == BPF_JLE then dst <= src
    else if op == BPF_JSET then BitAnd(dst, src) != 0
    else if op == BPF_JSLT then Signed(dst, is32) < Signed(src, is32)
    else false
  }

  predicate JumpTaken(regs: Regs, insn: BpfInsn)
    requires insn.dst < 11 && insn.src < 11
  {
    var is32 := Class(insn.code) == BPF_JMP32;
    EvalJmpCond(if is32 then ToU32(regs[insn.dst]) else regs[insn.dst],
                GetSrcVal(regs, insn, !is32), Op(insn.code), is32)
  }

  // ----- memory -----

  /** Position in the frame of an address, if the access stays inside it. */
  predicate InFrame(env: Env, addr: Word64, size: nat) {
    env.fp - STACK_SIZE <= addr && addr + size <= env.fp
  }

  function FrameIndex(env: Env, addr: Word64): int { addr - (env.fp - STACK_SIZE) }

  function LoadFrame(bigEndian: bool, frame: Frame, at: int, size: nat): nat
    requires 0 <= at && at + size <= STACK_SIZE
  {
    Decode(bigEndian, frame[at..at + size])
  }

  function StoreFrame(frame: Frame, at: int, bytes: seq<Byte>): Frame
    requires 0 <= at && at + |bytes| <= STACK_SIZE
  {
    frame[..at] + bytes + frame[at + |bytes|..]
  }

  function Plus(addr: Word64, j: int): Word64 { ToU64(addr + j) }

  predicate Mapped(env: Env, addr: Word64, size: nat) {
    forall j | 0 <= j < size :: Plus(addr, j) in env.memory
  }

  function KernelBytes(env: Env, addr: Word64, size: nat): (s: seq<Byte>)
    requires Mapped(env, addr, size)
    ensures |s| == size
  {
    seq(size, j requires 0 <= j < size => env.memory[Plus(addr, j)])
  }

  function AccessBytes(code: Byte): nat {
    if Size(code) == BPF_DW then 8 else SizeBytes(code)
  }

  function Next(s: State): State { s.(pc := s.pc + 1) }

  function ExecLoad(env: Env, s: State, insn: BpfInsn): Config
    requires insn.dst < 11 && insn.src < 11
  {
    var addr, size := ToU64(s.regs[insn.src] + insn.off), AccessBytes(insn.code);
    if InFrame(env, addr, size) then
      Running(Next(s).(regs := s.regs[insn.dst := ToU64(LoadFrame(env.bigEndian, s.frame, FrameIndex(env, addr), size))]))
    else Fault
  }

  function ExecStore(env: Env, s: State, insn: BpfInsn): Config
    requires insn.dst < 11 && insn.src < 11
  {
    var addr, size := ToU64(s.regs[insn.dst] + insn.off), AccessBytes(insn.code);
    if InFrame(env, addr, size) then
      Running(Next(s).(frame := StoreFrame(s.frame, FrameIndex(env, addr),
                                           Encode(env.bigEndian, s.regs[insn.src] % Pow256(size), size))))
    else Fault
  }

  /** Registers after a helper call: R0 is its result and R1..R5 hold nothing a program may rely on. */
  function AfterCall(env: Env, s: State, result: Word64): Regs {
    s.regs[0 := result]
      [1 := env.clobber(1, s.pc)][2 := env.clobber(2, s.pc)][3 := env.clobber(3, s.pc)]
      [4 := env.clobber(4, s.pc)][5 := env.clobber(5, s.pc)]
  }

  /** `probe_read_kernel(R1 = to, R2 = size, R3 = from)`: a faulting read zero-fills and returns -EFAULT. */
  function ProbeRead(env: Env, s: State): Config {
    var to, size, from := s.regs[1], s.regs[2], s.regs[3];
    if !InFrame(env, to, size) then Fault
    else if Mapped(env, from, size) then
      Running(State(s.pc + 1, AfterCall(env, s, 0),
                    StoreFrame(s.frame, FrameIndex(env, to), KernelBytes(env, from, size))))
    else
      Running(State(s.pc + 1, AfterCall(env, s, TWO64 - EFAULT),
                    StoreFrame(s.frame, FrameIndex(env, to), seq(size, _ => 0))))
  }

  function ExecJmp(env: Env, s: State, insn: BpfInsn): Config
    requires insn.dst < 11 && insn.src < 11
  {
    if Op(insn.code) == BPF_EXIT then Exited(s.regs[0])
    else if Op(insn.code) == BPF_CALL then
      if insn.src == 0 && insn.imm == BPF_FUNC_probe_read_kernel then ProbeRead(env, s) else Fault
    else if JumpTaken(s.regs, insn) then Running(s.(pc := s.pc + 1 + insn.off))
    else Running(Next(s))
  }

  // ----- runs -----

  function Exec(env: Env, s: State, insn: BpfInsn): Config {
    if insn.dst >= 11 || insn.src >= 11 then Fault
    else if Class(insn.code) == BPF_ALU || Class(insn.code) == BPF_ALU64 then
      Running(Next(s).(regs := ExecAlu(env.bigEndian, s.regs, insn)))
    else if Class(insn.code) == BPF_JMP || Class(insn.code) == BPF_JMP32 then ExecJmp(env, s, insn)
    else if Class(insn.code) == BPF_LDX && Mode(insn.code) == BPF_MEM then ExecLoad(env, s, insn)
    else if Class(insn.code) == BPF_STX && Mode(insn.code) == BPF_MEM then ExecStore(env, s, insn)
    else Fault
  }

  function Step(prog: seq<BpfInsn>, env: Env, s: State): Config {
    if 0 <= s.pc < |prog| then Exec(env, s, prog[s.pc]) else OffEnd(s.regs[0])
  }

  /** The configuration after `n` steps; a machine that has stopped stays as it is. */
  function Iter(prog: seq<BpfInsn>, env: Env, c: Config, n: nat): Config
    decreases n
  {
    if n == 0 || !c.Running? then c else Iter(prog, env, Step(prog, env, c.state), n - 1)
  }

  function Run(prog: seq<BpfInsn>, env: Env, s: State, n: nat): Config {
    Iter(prog, env, Running(s), n)
  }

  lemma RunUnfold(prog: seq<BpfInsn>, env: Env, s: State, n: nat)
    ensures n == 0 ==> Run(prog, env, s, n) == Running(s)
    ensures n > 0 ==> Run(prog, env, s, n) == Iter(prog, env, Step(prog, env, s), n - 1)
    ensures n > 0 && !Step(prog, env, s).Running? ==> Run(prog, env, s, n) == Step(prog, env, s)
  {
    hide Exec;
  }

  lemma {:induction false} IterAdd(prog: seq<BpfInsn>, env: Env, c: Config, m: nat, n: nat)
    ensures Iter(prog, env, c, m + n) == Iter(prog, env, Iter(prog, env, c, m), n)
    decreases m
  {
    hide Step;
    if m > 0 && c.Running? {
      IterAdd(prog, env, Step(prog, env, c.state), m - 1, n);
    }
  }

  /** A run that has stopped after `m` steps has the same outcome after any longer time. */
  lemma Stopped(prog: seq<BpfInsn>, env: Env, c: Config, m: nat, n: nat)
    requires m <= n && !Iter(prog, env, c, m).Running?
    ensures Iter(prog, env, c, n) == Iter(prog, env, c, m)
  {
    IterAdd(prog, env, c, m, n - m);
  }
}
