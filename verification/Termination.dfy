/** How long a converted filter runs: total correctness. */
module Termination {
  import opened Words
  import opened Ebpf
  import opened Cbpf
  import opened Translation
  import opened Rules
  import opened PacketLoads
  import opened Frames
  import opened Blocks
  import opened Simulation
  import opened Preservation
  import opened Labels
  import opened Relocation

  // ----- termination -----

  /** The block a position after the prologue belongs to. */
  lemma BlockOf(prog: seq<SockFilter>, p: int, n: int) returns (i: int, d: int)
    requires 0 <= n <= |prog| && 5 <= p < Addr(prog, n)
    ensures 0 <= i < n && 0 <= d < BlockLen(prog[i]) && p == Addr(prog, i) + d
    decreases n
  {
    hide BlockLen;
    NextAddr(prog, n - 1);
    if p < Addr(prog, n - 1) {
      i, d := BlockOf(prog, p, n - 1);
    } else {
      i, d := n - 1, p - Addr(prog, n - 1);
    }
  }

  /** Forward classic jumps become forward jumps, and all other emitted jumps are forward anyway. */
  lemma OutputJumpsForward(prog: seq<SockFilter>, p: int)
    requires Convertible(prog) && ForwardOnly(prog) && 0 <= p < |Output(prog)| && IsJump(Output(prog)[p])
    ensures Output(prog)[p].off >= 0
  {
    hide Block, BlockLen, Addr, JumpOff, FinalTable;
    if p < 5 {
      PrologueHasNoJumps(prog, p);
    } else {
      var i, d := BlockOf(prog, p, |prog|);
      EveryJumpLands(prog, i, d);
      if l :| l in LabelsOf(prog[i], i) && l.d == d && 0 <= l.target < |prog| &&
              Landing(prog, i, d) == Addr(prog, l.target) {
        ForwardLabel(prog, i, l);
        AddrGrows(prog, i, l.target);
      }
    }
  }

  lemma PrologueHasNoJumps(prog: seq<SockFilter>, p: int)
    requires Convertible(prog) && 0 <= p < 5
    ensures p < |Output(prog)| && !IsJump(Output(prog)[p])
  {
    hide Block, BlockLen, Output;
    assert CodeAt(Output(prog), 0, Output(prog));
    ProloguePlaced(Output(prog), 0, prog);
    Fetch(Output(prog), 0, Prologue());
  }

  lemma ForwardLabel(prog: seq<SockFilter>, i: int, l: Label)
    requires Convertible(prog) && ForwardOnly(prog) && 0 <= i < |prog|
    requires l in LabelsOf(prog[i], i) && 0 <= l.target < |prog|
    ensures l.target > i
  {
    hide FirstBlock, FinalBlock;
    if IsJa(prog[i].code) {
      JaTargetIsSigned(prog[i], i, |prog|);
    }
  }

  /** In forward code every step advances the program counter. */
  lemma {:induction false} RunAdvances(code: seq<BpfInsn>, env: Env, t: State, n: nat)
    requires forall p | 0 <= p < |code| && IsJump(code[p]) :: code[p].off >= 0
    requires t.pc >= 0
    ensures Run(code, env, t, n).Running? ==> Run(code, env, t, n).state.pc >= t.pc + n
    decreases n
  {
    hide Exec, Iter;
    Begin(code, env, t);
    if n > 0 {
      RunAdvances(code, env, t, n - 1);
      IterAdd(code, env, Running(t), n - 1, 1);
      var c := Run(code, env, t, n - 1);
      if c.Running? {
        DoStep(code, env, t, n - 1, c.state);
        StepAdvances(code, env, c.state);
      } else {
        Stopped(code, env, Running(t), n - 1, n);
      }
    }
  }

  lemma StepAdvances(code: seq<BpfInsn>, env: Env, t: State)
    requires forall p | 0 <= p < |code| && IsJump(code[p]) :: code[p].off >= 0
    requires t.pc >= 0
    ensures Step(code, env, t).Running? ==> Step(code, env, t).state.pc >= t.pc + 1
  {
    hide ExecAlu, EvalJmpCond, GetSrcVal, LoadFrame, StoreFrame, Mapped, KernelBytes, AfterCall, InFrame, Encode;
  }

  // ----- total correctness -----

  lemma {:induction false} ClassicAdvances(prog: seq<SockFilter>, pkt: Packet, s: CState, n: nat)
    requires ForwardOnly(prog) && 0 <= s.pc
    ensures IterC(prog, pkt, Going(s), n).Going? ==> IterC(prog, pkt, Going(s), n).state.pc >= s.pc + n
    decreases n
  {
    hide StepC, IterC;
    IterCUnfold(prog, pkt, s, n);
    if n > 0 && StepC(prog, pkt, s).Going? {
      ClassicStepAdvances(prog, pkt, s);
      ClassicAdvances(prog, pkt, StepC(prog, pkt, s).state, n - 1);
    }
  }

  lemma ClassicStepAdvances(prog: seq<SockFilter>, pkt: Packet, s: CState)
    requires ForwardOnly(prog) && 0 <= s.pc
    ensures StepC(prog, pkt, s).Going? ==> StepC(prog, pkt, s).state.pc >= s.pc + 1
  {
    hide PacketValue, Condition;
  }

  /** A legal classic filter with forward jumps returns within as many steps as it has instructions. */
  lemma ClassicTerminates(prog: seq<SockFilter>, pkt: Packet, mem: Scratch)
    requires Convertible(prog) && Legal(prog) && EndsInRet(prog) && ForwardOnly(prog)
    ensures RunC(prog, pkt, mem, |prog|).Returned?
  {
    hide IterC, Convertible, Legal, EndsInRet, ForwardOnly;
    NotEmpty(prog);
    StaysInside(prog, pkt, StartC(mem), |prog|);
    ClassicAdvances(prog, pkt, StartC(mem), |prog|);
  }

  /** The converted filter as a program of its own. */
  lemma TotalAlone(env: Env, prog: seq<SockFilter>, t: State)
    requires Convertible(prog) && Legal(prog) && EndsInRet(prog) && ForwardOnly(prog) && Entered(env, 0, t)
    ensures var classic := RunC(prog, PacketOf(env), ScratchOf(env.bigEndian, t.frame), |prog|);
      classic.Returned? && Run(Output(prog), env, t, |Output(prog)|) == Exited(Verdict(classic.value))
  {
    hide Exec, Iter, Output, Convertible, Legal, EndsInRet, ForwardOnly, PacketOf, ScratchOf, IterC, Matches;
    var code, pkt, mem := Output(prog), PacketOf(env), ScratchOf(env.bigEndian, t.frame);
    ClassicTerminates(prog, pkt, mem);
    assert CodeAt(code, 0, code);
    var m, t' := FilterSimulates(code, env, 0, prog, t, |prog|);
    forall p | 0 <= p < |code| && IsJump(code[p]) ensures code[p].off >= 0 {
      OutputJumpsForward(prog, p);
    }
    RunAdvances(code, env, t, |code|);
    var c := Run(code, env, t, |code|);
    if m <= |code| {
      Stopped(code, env, Running(t), m, |code|);
    } else if c.Running? {
      PastTheEnd(code, env, t, c.state, m);
      assert false;
    } else {
      Stopped(code, env, Running(t), |code|, m);
    }
  }

  /** Total correctness: wherever the converted filter stands, it exits with the classic verdict within as many
      steps as it has instructions. */
  lemma TotalCorrectness(code: seq<BpfInsn>, env: Env, base: int, prog: seq<SockFilter>, t: State)
    requires Convertible(prog) && Legal(prog) && EndsInRet(prog) && ForwardOnly(prog)
    requires CodeAt(code, base, Output(prog)) && Entered(env, base, t)
    ensures var classic := RunC(prog, PacketOf(env), ScratchOf(env.bigEndian, t.frame), |prog|);
      classic.Returned? && Run(code, env, t, |Output(prog)|) == Exited(Verdict(classic.value))
  {
    hide Run, Output, CodeAt, Convertible, Legal, EndsInRet, ForwardOnly, PacketOf, ScratchOf, RunC;
    var alone := t.(pc := 0);
    SamePacket(env, base);
    TotalAlone(Seen(env, base), prog, alone);
    RunRelocated(code, env, base, Output(prog), alone, |Output(prog)|);
    assert Placed(alone, base) == t;
  }

  lemma SamePacket(env: Env, base: int)
    ensures PacketOf(Seen(env, base)) == PacketOf(env)
  {
  }

  lemma PastTheEnd(code: seq<BpfInsn>, env: Env, t: State, t': State, m: nat)
    requires At(code, env, t, |code|, t') && t'.pc >= |code| && m > |code|
    ensures Run(code, env, t, m).OffEnd?
  {
    hide Exec, Iter;
    DoStep(code, env, t, |code|, t');
    Stopped(code, env, Running(t), |code| + 1, m);
  }
}
