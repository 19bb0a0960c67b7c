/** The simulation: a converted filter, at any position of any program, follows the classic filter step by step. */
module Simulation {
  import opened Words
  import opened Opcodes
  import opened Ebpf
  import opened Macros
  import opened Cbpf
  import opened Translation
  import opened Rules
  import opened PacketLoads
  import opened Frames
  import opened Blocks

  // ----- where blocks and labels are -----

  lemma EmittedStep(prog: seq<SockFilter>, i: int)
    requires Convertible(prog) && 0 <= i < |prog|
    ensures |FinalBlock(prog, i).value| == BlockLen(prog[i]) && |Emitted(prog, i)| == Addr(prog, i)
    ensures Emitted(prog, i + 1) == Emitted(prog, i) + FinalBlock(prog, i).value
  {
    hide FinalBlock, BlockLen, Addr, Prologue;
    assert FinalInsns(prog, i) == FinalBlock(prog, i).value;
  }

  lemma {:induction false} EmittedGrows(prog: seq<SockFilter>, m: int, n: int)
    requires 0 <= m <= n <= |prog| && Convertible(prog)
    ensures Emitted(prog, m) <= Emitted(prog, n)
    decreases n
  {
    hide Block, BlockLen, Emitted;
    if m < n {
      EmittedGrows(prog, m, n - 1);
      EmittedStep(prog, n - 1);
      PrefixAppend(Emitted(prog, m), Emitted(prog, n - 1), FinalBlock(prog, n - 1).value);
    }
  }

  lemma PrefixAppend<T>(p: seq<T>, a: seq<T>, b: seq<T>)
    requires p <= a
    ensures p <= a + b
  {
  }

  /** The block of instruction `i` stands at its address. */
  lemma BlockPlaced(code: seq<BpfInsn>, base: int, prog: seq<SockFilter>, i: int)
    requires Convertible(prog) && CodeAt(code, base, Output(prog)) && 0 <= i < |prog|
    ensures CodeAt(code, base + Addr(prog, i), FinalBlock(prog, i).value)
    ensures |FinalBlock(prog, i).value| == BlockLen(prog[i])
  {
    hide FinalBlock, BlockLen, CodeAt, Emitted, Addr;
    EmittedGrows(prog, i + 1, |prog|);
    EmittedStep(prog, i);
    CodeAtPrefix(code, base, Output(prog), Emitted(prog, i + 1));
    CodeAtSplit(code, base, Emitted(prog, i), FinalBlock(prog, i).value);
  }

  lemma ProloguePlaced(code: seq<BpfInsn>, base: int, prog: seq<SockFilter>)
    requires Convertible(prog) && CodeAt(code, base, Output(prog))
    ensures CodeAt(code, base, Prologue())
  {
    hide Block, BlockLen, Prologue, CodeAt;
    EmittedGrows(prog, 0, |prog|);
    CodeAtPrefix(code, base, Output(prog), Prologue());
  }

  /** A resolved label: the jump at position `d` of block `i` leads to the first instruction of the target's block. */
  lemma LabelResolved(prog: seq<SockFilter>, i: int, d: nat, target: int)
    requires 0 <= i < |prog|
    requires JumpOff(Some(FinalTable(prog)), |prog|, i, d, target).Some?
    ensures 0 <= target < |prog|
    ensures Addr(prog, i) + d + 1 + JumpOff(Some(FinalTable(prog)), |prog|, i, d, target).value == Addr(prog, target)
  {
  }

  // ----- one classic step -----

  /** The classic state and the state of a filter placed at `base` correspond, at a block boundary. */
  predicate Matches(env: Env, base: int, prog: seq<SockFilter>, s: CState, t: State) {
    0 <= s.pc <= |prog| && t.pc == base + Addr(prog, s.pc) && Represents(env, s, t)
  }

  lemma JaBlockRuns(code: seq<BpfInsn>, env: Env, base: int, prog: seq<SockFilter>, s: CState, t: State)
    returns (n: nat, t': State)
    requires Convertible(prog) && CodeAt(code, base, Output(prog)) && 0 <= s.pc < |prog| && Matches(env, base, prog, s, t)
    requires IsJa(prog[s.pc].code)
    ensures StepC(prog, PacketOf(env), s).Going?
    ensures n > 0 && At(code, env, t, n, t') && Matches(env, base, prog, StepC(prog, PacketOf(env), s).state, t')
  {
    hide Exec, At, Represents, PacketOf, Output, Addr, BlockLen, CodeAt;
    var i, f, len := s.pc, prog[s.pc], |prog|;
    BlockPlaced(code, base, prog, i);
    LabelResolved(prog, i, 0, JaTarget(f, i));
    JaTargetIsSigned(f, i, len);
    var off := JumpOff(Some(FinalTable(prog)), len, i, 0, JaTarget(f, i)).value;
    FetchOne(code, base + Addr(prog, i), Ja(off));
    Begin(code, env, t);
    t' := DoJa(code, env, t, 0, t, off);
    n := 1;
    SameRegisters(env, s, t, StepC(prog, PacketOf(env), s).state, t');
  }

  /** The two ways out of a conditional block, by the final table. */
  function JumpTrue(prog: seq<SockFilter>, i: int): Option<Int16>
    requires 0 <= i < |prog|
  {
    JumpOff(Some(FinalTable(prog)), |prog|, i, |CondPrefix(prog[i])|, i + prog[i].jt + 1)
  }

  function JumpFalse(prog: seq<SockFilter>, i: int): Option<Int16>
    requires 0 <= i < |prog| && IsCondJmp(prog[i].code)
  {
    JumpOff(Some(FinalTable(prog)), |prog|, i, |CondPrefix(prog[i])| + |CondJumps(prog[i], 0, 0)| - 1, i + prog[i].jf + 1)
  }

  lemma CondBlockShape(prog: seq<SockFilter>, i: int)
    requires 0 <= i < |prog| && IsCondJmp(prog[i].code) && FinalBlock(prog, i).Some?
    ensures FinalBlock(prog, i).value ==
      CondPrefix(prog[i]) + CondJumps(prog[i], JumpTrue(prog, i).GetOr(0), JumpFalse(prog, i).GetOr(0))
    ensures prog[i].jf == 0 || prog[i].jt != 0 || !Invertible(Op(prog[i].code)) ==> JumpTrue(prog, i).Some?
    ensures prog[i].jf != 0 ==> JumpFalse(prog, i).Some?
  {
    hide JumpOff, CondInsn, InvertOp;
  }

  /** Both ways out of a conditional block lead to the block of their classic target. */
  lemma CondLands(prog: seq<SockFilter>, i: int, holds: bool)
    requires 0 <= i < |prog| && IsCondJmp(prog[i].code) && FinalBlock(prog, i).Some?
    ensures var f, on, off := prog[i], JumpTrue(prog, i).GetOr(0), JumpFalse(prog, i).GetOr(0);
      var start := Addr(prog, i) + |CondPrefix(f)|;
      var end := start + |CondJumps(f, on, off)|;
      var target := i + 1 + if holds then f.jt else f.jf;
      0 <= target <= |prog| && Addr(prog, target) ==
        if holds then if f.jf != 0 && f.jt == 0 && Invertible(Op(f.code)) then end else start + 1 + on
        else if f.jf == 0 then end else end + off
  {
    hide CondInsn, InvertOp, JumpOff, FinalBlock, Addr, BlockLen;
    var f, d := prog[i], |CondPrefix(prog[i])|;
    NextAddr(prog, i);
    CondBlockLen(f);
    CondBlockShape(prog, i);
    if JumpTrue(prog, i).Some? {
      LabelResolved(prog, i, d, i + f.jt + 1);
    }
    if JumpFalse(prog, i).Some? {
      LabelResolved(prog, i, d + |CondJumps(f, 0, 0)| - 1, i + f.jf + 1);
    }
  }

  lemma CondBlockLen(f: SockFilter)
    requires IsCondJmp(f.code)
    ensures BlockLen(f) == |CondPrefix(f)| + |CondJumps(f, 0, 0)|
  {
  }

  lemma CondBlockRuns(code: seq<BpfInsn>, env: Env, base: int, prog: seq<SockFilter>, s: CState, t: State)
    returns (n: nat, t': State)
    requires Convertible(prog) && CodeAt(code, base, Output(prog)) && 0 <= s.pc < |prog| && Matches(env, base, prog, s, t)
    requires IsCondJmp(prog[s.pc].code)
    ensures StepC(prog, PacketOf(env), s).Going?
    ensures n > 0 && At(code, env, t, n, t') && Matches(env, base, prog, StepC(prog, PacketOf(env), s).state, t')
  {
    hide Exec, Iter, Represents, PacketOf, Output, Addr, Condition, CondPrefix, CondJumps, CodeAt, FinalBlock,
      JumpTrue, JumpFalse;
    var i, f := s.pc, prog[s.pc];
    var at, pre := base + Addr(prog, i), CondPrefix(f);
    RegisterBounds(env, s, t);
    BlockPlaced(code, base, prog, i);
    CondBlockShape(prog, i);
    CodeAtSplit(code, at, pre, CondJumps(f, JumpTrue(prog, i).GetOr(0), JumpFalse(prog, i).GetOr(0)));
    n, t' := CondPrefixRuns(code, env, at, f, t);
    var m, u := CondJumpsRun(code, env, at + |pre|, f, JumpTrue(prog, i).GetOr(0), JumpFalse(prog, i).GetOr(0), t');
    Concat(code, env, t, n, t', m);
    n, t' := n + m, u;
    CondLands(prog, i, Condition(Op(f.code), s.a, AluOperand(f, s)));
    SameRegisters(env, s, t, StepC(prog, PacketOf(env), s).state, t');
  }

  lemma RegisterBounds(env: Env, s: CState, t: State)
    requires Represents(env, s, t)
    ensures t.regs[0] == s.a && t.regs[7] == s.x && t.regs[10] == env.fp
  {
  }

  lemma SameRegisters(env: Env, s: CState, t: State, s': CState, t': State)
    requires Represents(env, s, t) && t'.frame == t.frame
    requires s'.a == s.a && s'.x == s.x && s'.mem == s.mem
    requires t'.regs[0] == t.regs[0] && t'.regs[7] == t.regs[7] && t'.regs[10] == t.regs[10]
    ensures Represents(env, s', t')
  {
  }

  lemma FetchOne(code: seq<BpfInsn>, at: int, insn: BpfInsn)
    requires CodeAt(code, at, [insn])
    ensures 0 <= at < |code| && code[at] == insn
  {
    Fetch(code, at, [insn]);
  }

  lemma NextAddr(prog: seq<SockFilter>, i: int)
    requires 0 <= i < |prog|
    ensures Addr(prog, i + 1) == Addr(prog, i) + BlockLen(prog[i])
  {
  }

  /** An accepted JA target is the displacement read as a signed number; huge ones jump backward. */
  lemma JaTargetIsSigned(f: SockFilter, i: int, len: int)
    requires 0 <= i < len <= BPF_MAXINSNS && 0 <= JaTarget(f, i) < len
    ensures JaTarget(f, i) == i + 1 + ToS32(f.k)
  {
  }

  /** One classic step is a finite, nonempty run of its block, to the next block or to EXIT. */
  lemma StepSimulated(code: seq<BpfInsn>, env: Env, base: int, prog: seq<SockFilter>, s: CState, t: State)
    returns (n: nat, t': State)
    requires Convertible(prog) && Legal(prog) && CodeAt(code, base, Output(prog))
    requires 0 <= s.pc < |prog| && Matches(env, base, prog, s, t)
    ensures match StepC(prog, PacketOf(env), s)
      case Going(s') => n > 0 && At(code, env, t, n, t') && Matches(env, base, prog, s', t')
      case Returned(v) => DoesReturn(code, env, t, n, v)
      case _ => false
  {
    hide Exec, Iter, Represents, PacketOf, Output, Addr, CodeAt, ExecC, BlockLen;
    hide AluBlock, PacketLoad, MshBlock, RetBlock;
    var i, f := s.pc, prog[s.pc];
    var at := base + Addr(prog, i);
    BlockPlaced(code, base, prog, i);
    NextAddr(prog, i);
    if IsJa(f.code) {
      n, t' := JaBlockRuns(code, env, base, prog, s, t);
    } else if IsCondJmp(f.code) {
      n, t' := CondBlockRuns(code, env, base, prog, s, t);
    } else if IsAlu(f.code) {
      n, t' := AluBlockRuns(code, env, at, f, s, t);
    } else if IsPacketLoad(f.code) {
      n, t' := LoadBlockRuns(code, env, at, f, s, t);
    } else if IsMsh(f.code) {
      n, t' := MshBlockRuns(code, env, at, f, s, t);
    } else if IsRet(f.code) {
      n := RetBlockRuns(code, env, at, f, s, t);
      t' := t;
    } else if IsStore(f.code) {
      t' := StoreRuns(code, env, at, f, s, t);
      n := 1;
    } else {
      t' := RegMoveRuns(code, env, at, f, s, t);
      n := 1;
    }
  }

  /** A filter is called with the packet bounds in R4 and R5, the frame pointer in R10, and anything elsewhere. */
  predicate Entered(env: Env, base: int, t: State) {
    t.pc == base && t.regs[4] == env.data && t.regs[5] == env.dataEnd && t.regs[10] == env.fp
  }

  /** The prologue saves the bounds and clears A and X: the filter is ready for its first instruction. */
  lemma PrologueRuns(code: seq<BpfInsn>, env: Env, base: int, prog: seq<SockFilter>, t: State) returns (t': State)
    requires Convertible(prog) && CodeAt(code, base, Output(prog)) && Entered(env, base, t)
    ensures At(code, env, t, 5, t')
    ensures Matches(env, base, prog, StartC(ScratchOf(env.bigEndian, t.frame)), t')
  {
    hide Exec, At, Output, StoreFrame, Encode, CodeAt, SavedBounds, HoldsScratch, Pow256, ScratchOf;
    ProloguePlaced(code, base, prog);
    Fetch(code, base, Prologue());
    Begin(code, env, t);
    Pow256Small();
    U64Same(0);
    ScratchOfHolds(env.bigEndian, t.frame);
    BoundsSaved(env, t.frame, ScratchOf(env.bigEndian, t.frame));
    var t1 := DoStx(code, env, t, 0, t, BPF_DW, 4, DATA_SLOT);
    var t2 := DoStx(code, env, t, 1, t1, BPF_DW, 5, DATA_END_SLOT);
    var t3 := DoMov64Reg(code, env, t, 2, t2, REG_CTX, 1);
    var t4 := DoMov64Imm(code, env, t, 3, t3, REG_A, 0);
    t' := DoMov64Imm(code, env, t, 4, t4, REG_X, 0);
    U64Same(env.data);
    U64Same(env.dataEnd);
  }

  // ----- whole runs -----

  lemma IterCUnfold(prog: seq<SockFilter>, pkt: Packet, s: CState, n: nat)
    ensures IterC(prog, pkt, Going(s), 0) == Going(s)
    ensures n > 0 ==> IterC(prog, pkt, Going(s), n) == IterC(prog, pkt, StepC(prog, pkt, s), n - 1)
    ensures n > 0 && !StepC(prog, pkt, s).Going? ==> IterC(prog, pkt, Going(s), n) == StepC(prog, pkt, s)
  {
    hide StepC;
  }

  lemma AtTheEnd(env: Env, base: int, prog: seq<SockFilter>, s: CState, t: State)
    requires Convertible(prog) && Matches(env, base, prog, s, t) && s.pc >= |prog|
    ensures StepC(prog, PacketOf(env), s) == FellOff && t.pc == base + |Output(prog)|
  {
    hide Addr, Represents, PacketOf, ExecC;
  }

  /** `n` classic steps are simulated by at least `n` steps of the filter. */
  lemma {:induction false} StepsSimulated(
    code: seq<BpfInsn>, env: Env, base: int, prog: seq<SockFilter>, s: CState, t: State, n: nat)
    returns (m: nat, t': State)
    requires Convertible(prog) && Legal(prog) && CodeAt(code, base, Output(prog)) && Matches(env, base, prog, s, t)
    ensures match IterC(prog, PacketOf(env), Going(s), n)
      case Going(s') => m >= n && At(code, env, t, m, t') && Matches(env, base, prog, s', t')
      case Returned(v) => Run(code, env, t, m) == Exited(Verdict(v))
      case FellOff => At(code, env, t, m, t') && t'.pc == base + |Output(prog)|
      case Illegal => false
    decreases n
  {
    hide Step, StepC, Iter, Represents, PacketOf, Output, CodeAt, IterC, Addr;
    m, t' := 0, t;
    Begin(code, env, t);
    IterCUnfold(prog, PacketOf(env), s, n);
    if n > 0 {
      var next := StepC(prog, PacketOf(env), s);
      if s.pc < |prog| {
        var k, u := StepSimulated(code, env, base, prog, s, t);
        m, t' := k, u;
        if next.Going? {
          var m1, t1 := StepsSimulated(code, env, base, prog, next.state, u, n - 1);
          Concat(code, env, t, k, u, m1);
          m, t' := k + m1, t1;
        }
      } else {
        AtTheEnd(env, base, prog, s, t);
      }
    }
  }
}
