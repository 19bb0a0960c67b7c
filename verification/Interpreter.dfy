/** The interpreter as it runs: registers, frame and program counter updated in a loop. */
module Interpreter {
  import opened Words
  import opened Opcodes
  import opened Alu
  import opened Ebpf
  import opened Cbpf
  import opened Translation
  import opened Rules
  import opened PacketLoads
  import opened Frames
  import opened Blocks
  import opened Termination

  /** Zeroed registers and frame, then the calling convention: R4 = data, R5 = data_end, R10 = frame top. */
  function InitialState(env: Env): State {
    var zero := seq<Word64>(11, _ => 0);
    State(0, zero[1 := 0x1234][4 := env.data][5 := env.dataEnd][10 := env.fp], seq<Byte>(STACK_SIZE, _ => 0))
  }

  method ExecAluInPlace(regs: array<Word64>, insn: BpfInsn, bigEndian: bool)
    requires regs.Length == 11 && insn.dst < 11 && insn.src < 11
    modifies regs
    ensures regs[..] == ExecAlu(bigEndian, old(regs[..]), insn)
  {
    var is64 := Class(insn.code) == BPF_ALU64;
    var src := GetSrcVal(regs[..], insn, is64);
    var dst := regs[insn.dst];
    if Op(insn.code) == BPF_END && !is64 {
      regs[insn.dst] := ByteOrder(bigEndian, insn.code, insn.imm, dst);
    } else {
      regs[insn.dst] := AluResult(is64, Op(insn.code), dst, src);
    }
  }

  /** Bytes into the frame at `at`. */
  method CopyIn(stack: array<Byte>, at: nat, bytes: seq<Byte>)
    requires stack.Length == STACK_SIZE && at + |bytes| <= STACK_SIZE
    modifies stack
    ensures stack[..] == StoreFrame(old(stack[..]), at, bytes)
  {
    for j := 0 to |bytes|
      invariant forall p | 0 <= p < STACK_SIZE ::
        stack[p] == if at <= p < at + j then bytes[p - at] else old(stack[p])
    {
      stack[at + j] := bytes[j];
    }
  }

  /** What an instruction does to the machine in place; the state after it is `Exec`'s. */
  method ExecInPlace(env: Env, regs: array<Word64>, stack: array<Byte>, pc: int, insn: BpfInsn)
    returns (running: bool, pc': int, stopped: Config)
    requires regs.Length == 11 && stack.Length == STACK_SIZE
    modifies regs, stack
    ensures running == Exec(env, old(State(pc, regs[..], stack[..])), insn).Running?
    ensures running ==> Exec(env, old(State(pc, regs[..], stack[..])), insn) == Running(State(pc', regs[..], stack[..]))
    ensures !running ==> Exec(env, old(State(pc, regs[..], stack[..])), insn) == stopped
  {
    hide ExecAlu, EvalJmpCond, GetSrcVal, LoadFrame, StoreFrame, Mapped, KernelBytes, Encode, Pow256, AluResult;
    ghost var s := State(pc, regs[..], stack[..]);
    running, pc', stopped := true, pc + 1, Fault;
    if insn.dst >= 11 || insn.src >= 11 {
      running := false;
    } else if Class(insn.code) == BPF_ALU || Class(insn.code) == BPF_ALU64 {
      ExecAluInPlace(regs, insn, env.bigEndian);
    } else if Class(insn.code) == BPF_JMP || Class(insn.code) == BPF_JMP32 {
      if Op(insn.code) == BPF_EXIT {
        running, stopped := false, Exited(regs[0]);
      } else if Op(insn.code) == BPF_CALL {
        if insn.src == 0 && insn.imm == BPF_FUNC_probe_read_kernel {
          running := ProbeInPlace(env, regs, stack, pc);
        } else {
          running := false;
        }
      } else if JumpTaken(regs[..], insn) {
        pc' := pc + 1 + insn.off;
      }
    } else if Class(insn.code) == BPF_LDX && Mode(insn.code) == BPF_MEM {
      var addr, size := ToU64(regs[insn.src] + insn.off), AccessBytes(insn.code);
      if InFrame(env, addr, size) {
        regs[insn.dst] := ToU64(LoadFrame(env.bigEndian, stack[..], FrameIndex(env, addr), size));
        assert regs[..] == s.regs[insn.dst := regs[insn.dst]];
      } else {
        running := false;
      }
    } else if Class(insn.code) == BPF_STX && Mode(insn.code) == BPF_MEM {
      var addr, size := ToU64(regs[insn.dst] + insn.off), AccessBytes(insn.code);
      if InFrame(env, addr, size) {
        CopyIn(stack, FrameIndex(env, addr), Encode(env.bigEndian, regs[insn.src] % Pow256(size), size));
      } else {
        running := false;
      }
    } else {
      running := false;
    }
  }

  method ProbeInPlace(env: Env, regs: array<Word64>, stack: array<Byte>, pc: int) returns (running: bool)
    requires regs.Length == 11 && stack.Length == STACK_SIZE
    modifies regs, stack
    ensures running == ProbeRead(env, old(State(pc, regs[..], stack[..]))).Running?
    ensures running ==> ProbeRead(env, old(State(pc, regs[..], stack[..]))) == Running(State(pc + 1, regs[..], stack[..]))
    ensures !running ==> ProbeRead(env, old(State(pc, regs[..], stack[..]))).Fault?
  {
    hide StoreFrame, Mapped, KernelBytes;
    ghost var s := State(pc, regs[..], stack[..]);
    var to, size, from := regs[1], regs[2], regs[3];
    if !InFrame(env, to, size) {
      return false;
    }
    if Mapped(env, from, size) {
      CopyIn(stack, FrameIndex(env, to), KernelBytes(env, from, size));
      regs[0] := 0;
    } else {
      CopyIn(stack, FrameIndex(env, to), seq(size, _ => 0));
      regs[0] := TWO64 - EFAULT;
    }
    ghost var result, frame := regs[0], stack[..];
    for r := 1 to 6
      invariant stack[..] == frame
      invariant forall p | 0 <= p < 11 ::
        regs[p] == if p == 0 then result else if p < r then env.clobber(p, pc) else s.regs[p]
    {
      regs[r] := env.clobber(r, pc);
    }
    assert regs[..] == AfterCall(env, s, result);
    running := true;
  }

  /** run_bpf_prog: runs until EXIT or until the program counter leaves the program, given that this happens. */
  method RunBpfProg(insns: seq<BpfInsn>, env: Env, ghost bound: nat) returns (c: Config)
    requires !Run(insns, env, InitialState(env), bound).Running?
    ensures c == Run(insns, env, InitialState(env), bound)
  {
    hide Exec, Iter;
    var regs := new Word64[11](_ => 0);
    var stack := new Byte[STACK_SIZE](_ => 0);
    regs[1] := 0x1234;
    regs[4] := env.data;
    regs[5] := env.dataEnd;
    regs[10] := env.fp;
    var pc := 0;
    assert State(pc, regs[..], stack[..]) == InitialState(env);
    ghost var left := bound;
    while 0 <= pc < |insns|
      invariant Run(insns, env, State(pc, regs[..], stack[..]), left) == Run(insns, env, InitialState(env), bound)
      decreases left
    {
      RunUnfold(insns, env, State(pc, regs[..], stack[..]), left);
      var running, pc', stopped := ExecInPlace(env, regs, stack, pc, insns[pc]);
      if !running {
        return stopped;
      }
      pc := pc';
      left := left - 1;
    }
    RunUnfold(insns, env, State(pc, regs[..], stack[..]), left);
    return OffEnd(regs[0]);
  }

  /** On a converted filter the interpreter's verdict is the classic one. */
  method RunConverted(prog: seq<SockFilter>, env: Env) returns (r0: Word64)
    requires Convertible(prog) && Legal(prog) && EndsInRet(prog) && ForwardOnly(prog)
    ensures var mem := seq<Word32>(BPF_MEMWORDS, _ => 0);
      RunC(prog, PacketOf(env), mem, |prog|).Returned? && r0 == Verdict(RunC(prog, PacketOf(env), mem, |prog|).value)
  {
    hide Exec, Iter, Convertible, Legal, EndsInRet, ForwardOnly, PacketOf, IterC, Output;
    assert CodeAt(Output(prog), 0, Output(prog));
    TotalCorrectness(Output(prog), env, 0, prog, InitialState(env));
    ZeroScratch(env.bigEndian, InitialState(env).frame);
    var c := RunBpfProg(Output(prog), env, |Output(prog)|);
    r0 := c.r0;
  }

  lemma ZeroScratch(bigEndian: bool, frame: Frame)
    requires frame == seq<Byte>(STACK_SIZE, _ => 0)
    ensures ScratchOf(bigEndian, frame) == seq<Word32>(BPF_MEMWORDS, _ => 0)
  {
    hide Decode;
    forall k | 0 <= k < BPF_MEMWORDS ensures ScratchOf(bigEndian, frame)[k] == 0 {
      var word := frame[ScratchAt(k)..ScratchAt(k) + 4];
      assert forall j | 0 <= j < |word| :: word[j] == 0;
      DecodeZeros(bigEndian, word);
    }
  }

  lemma {:induction false} DecodeZeros(bigEndian: bool, s: seq<Byte>)
    requires forall j | 0 <= j < |s| :: s[j] == 0
    ensures Decode(bigEndian, s) == 0
    decreases |s|
  {
    if s != [] {
      DecodeZeros(bigEndian, if bigEndian then s[..|s| - 1] else s[1..]);
    }
  }
}
