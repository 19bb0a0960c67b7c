/** The main theorems about converted filters. */
module Preservation {
  import opened Words
  import opened Ebpf
  import opened Cbpf
  import opened Translation
  import opened Rules
  import opened PacketLoads
  import opened Frames
  import opened Blocks
  import opened Simulation

  /** The classic filter, started with the scratch words the frame happens to hold, returns `v`. */
  ghost predicate ClassicReturns(prog: seq<SockFilter>, env: Env, t: State, v: Word32) {
    exists n: nat :: RunC(prog, PacketOf(env), ScratchOf(env.bigEndian, t.frame), n) == Returned(v)
  }

  ghost predicate Exits(code: seq<BpfInsn>, env: Env, t: State, r: Word64) {
    exists n: nat :: Run(code, env, t, n) == Exited(r)
  }

  /** The verdict is `r`. */
  ghost predicate ClassicVerdict(prog: seq<SockFilter>, env: Env, t: State, r: Word64) {
    exists v :: ClassicReturns(prog, env, t, v) && r == Verdict(v)
  }

  /** The run of a filter after `n` classic steps. */
  lemma FilterSimulates(code: seq<BpfInsn>, env: Env, base: int, prog: seq<SockFilter>, t: State, n: nat)
    returns (m: nat, t': State)
    requires Convertible(prog) && Legal(prog) && CodeAt(code, base, Output(prog)) && Entered(env, base, t)
    ensures match RunC(prog, PacketOf(env), ScratchOf(env.bigEndian, t.frame), n)
      case Going(s') => m >= n && Run(code, env, t, m) == Running(t') && Matches(env, base, prog, s', t')
      case Returned(v) => Run(code, env, t, m) == Exited(Verdict(v))
      case FellOff => Run(code, env, t, m) == Running(t') && t'.pc == base + |Output(prog)|
      case Illegal => false
  {
    hide Exec, Iter, Output, CodeAt, Represents, PacketOf, ScratchOf, IterC;
    var t1 := PrologueRuns(code, env, base, prog, t);
    m, t' := StepsSimulated(code, env, base, prog, StartC(ScratchOf(env.bigEndian, t.frame)), t1, n);
    Concat(code, env, t, 5, t1, m);
    m := 5 + m;
  }

  /** Targets the converter accepts are inside the program, so only falling past the last instruction leaves it. */
  lemma StepStaysInside(prog: seq<SockFilter>, pkt: Packet, s: CState)
    requires Convertible(prog) && Legal(prog) && EndsInRet(prog) && 0 <= s.pc < |prog|
    ensures match StepC(prog, pkt, s)
      case Going(s') => 0 <= s'.pc < |prog|
      case Returned(_) => true
      case _ => false
  {
    hide PacketValue, Arith, Addr, Condition, PacketLoad, MshBlock, AluBlock, RetBlock, CondPrefix;
    var i, f := s.pc, prog[s.pc];
    assert FinalBlock(prog, i).Some?;
    if IsJa(f.code) {
      JaTargetIsSigned(f, i, |prog|);
    }
  }

  lemma {:induction false} StaysInside(prog: seq<SockFilter>, pkt: Packet, s: CState, n: nat)
    requires Convertible(prog) && Legal(prog) && EndsInRet(prog) && 0 <= s.pc < |prog|
    ensures match IterC(prog, pkt, Going(s), n)
      case Going(s') => 0 <= s'.pc < |prog|
      case Returned(_) => true
      case _ => false
    decreases n
  {
    hide StepC, Legal, Convertible, EndsInRet, IterC;
    IterCUnfold(prog, pkt, s, n);
    StepStaysInside(prog, pkt, s);
    if n > 0 && StepC(prog, pkt, s).Going? {
      StaysInside(prog, pkt, StepC(prog, pkt, s).state, n - 1);
    }
  }

  /** Semantic preservation. Called anywhere in any program, on any packet, any frame contents and any other
      register contents, a converted filter exits with `r` exactly when the classic filter returns a value
      whose verdict is `r`. */
  lemma SemanticPreservation(code: seq<BpfInsn>, env: Env, base: int, prog: seq<SockFilter>, t: State, r: Word64)
    requires Convertible(prog) && Legal(prog) && EndsInRet(prog)
    requires CodeAt(code, base, Output(prog)) && Entered(env, base, t)
    ensures Exits(code, env, t, r) <==> ClassicVerdict(prog, env, t, r)
  {
    hide Exec, Iter, Output, CodeAt, Convertible, Legal, EndsInRet, PacketOf, ScratchOf, IterC, Matches, Entered;
    var pkt, mem := PacketOf(env), ScratchOf(env.bigEndian, t.frame);
    if ClassicVerdict(prog, env, t, r) {
      var v :| ClassicReturns(prog, env, t, v) && r == Verdict(v);
      var n: nat :| RunC(prog, pkt, mem, n) == Returned(v);
      var m, t' := FilterSimulates(code, env, base, prog, t, n);
      assert Run(code, env, t, m) == Exited(r);
    }
    if Exits(code, env, t, r) {
      var m: nat :| Run(code, env, t, m) == Exited(r);
      var k, t' := FilterSimulates(code, env, base, prog, t, m);
      NotEmpty(prog);
      StaysInside(prog, pkt, StartC(mem), m);
      var c := RunC(prog, pkt, mem, m);
      if c.Going? {
        Stopped(code, env, Running(t), m, k);
        assert false;
      }
      Stopped(code, env, Running(t), if m <= k then m else k, if m <= k then k else m);
      assert ClassicReturns(prog, env, t, c.value);
    }
  }

  /** A converted filter runs forever exactly when the classic filter does; it never faults and never leaves its
      code but by EXIT. */
  lemma DivergencePreserved(code: seq<BpfInsn>, env: Env, base: int, prog: seq<SockFilter>, t: State)
    requires Convertible(prog) && Legal(prog) && EndsInRet(prog)
    requires CodeAt(code, base, Output(prog)) && Entered(env, base, t)
    ensures (forall n: nat :: Run(code, env, t, n).Running?) <==>
            (forall n: nat :: RunC(prog, PacketOf(env), ScratchOf(env.bigEndian, t.frame), n).Going?)
    ensures forall n: nat :: Run(code, env, t, n).Running? || Run(code, env, t, n).Exited?
  {
    hide Run, RunC, Output, CodeAt, Convertible, Legal, EndsInRet, PacketOf, ScratchOf, Matches, Entered;
    var pkt, mem := PacketOf(env), ScratchOf(env.bigEndian, t.frame);
    forall n: nat
      ensures RunC(prog, pkt, mem, n).Going? ==> Run(code, env, t, n).Running?
      ensures !RunC(prog, pkt, mem, n).Going? ==> exists m: nat :: !Run(code, env, t, m).Running?
      ensures Run(code, env, t, n).Running? || Run(code, env, t, n).Exited?
    {
      var m := OutcomeAfter(code, env, base, prog, t, n);
    }
  }

  /** After `n` classic steps the filter still runs, or it has exited or will exit after `m` steps of its own. */
  lemma OutcomeAfter(code: seq<BpfInsn>, env: Env, base: int, prog: seq<SockFilter>, t: State, n: nat) returns (m: nat)
    requires Convertible(prog) && Legal(prog) && EndsInRet(prog)
    requires CodeAt(code, base, Output(prog)) && Entered(env, base, t)
    ensures RunC(prog, PacketOf(env), ScratchOf(env.bigEndian, t.frame), n).Going? ==> Run(code, env, t, n).Running?
    ensures !RunC(prog, PacketOf(env), ScratchOf(env.bigEndian, t.frame), n).Going? ==> Run(code, env, t, m).Exited?
    ensures Run(code, env, t, n).Running? || Run(code, env, t, n).Exited?
  {
    hide Exec, Iter, Output, CodeAt, Convertible, Legal, EndsInRet, PacketOf, ScratchOf, IterC, Matches, Entered;
    var t';
    m, t' := FilterSimulates(code, env, base, prog, t, n);
    NotEmpty(prog);
    StaysInside(prog, PacketOf(env), StartC(ScratchOf(env.bigEndian, t.frame)), n);
    if !Run(code, env, t, n).Running? {
      if n <= m {
        Stopped(code, env, Running(t), n, m);
      } else if Run(code, env, t, m).Exited? {
        Stopped(code, env, Running(t), m, n);
      }
    }
  }

  lemma NotEmpty(prog: seq<SockFilter>)
    requires Convertible(prog)
    ensures |prog| > 0
  {
  }

  /** A classic filter that runs past its last instruction becomes a filter that runs past its end. */
  lemma FallingOffPreserved(env: Env, prog: seq<SockFilter>, t: State)
    requires Convertible(prog) && Legal(prog) && Entered(env, 0, t)
    ensures (exists n: nat :: RunC(prog, PacketOf(env), ScratchOf(env.bigEndian, t.frame), n) == FellOff) <==>
            (exists m: nat :: Run(Output(prog), env, t, m).OffEnd?)
  {
    hide Exec, Iter, Output, Convertible, Legal, PacketOf, ScratchOf, IterC, Matches, Entered;
    var code, pkt, mem := Output(prog), PacketOf(env), ScratchOf(env.bigEndian, t.frame);
    if n: nat :| RunC(prog, pkt, mem, n) == FellOff {
      var m, t' := FilterSimulates(code, env, 0, prog, t, n);
      DoStep(code, env, t, m, t');
      assert Run(code, env, t, m + 1).OffEnd?;
    }
    if m: nat :| Run(code, env, t, m).OffEnd? {
      var k, t' := FilterSimulates(code, env, 0, prog, t, m);
      var c := RunC(prog, pkt, mem, m);
      if c.Going? {
        Stopped(code, env, Running(t), m, k);
        assert false;
      }
      if c.Returned? {
        Stopped(code, env, Running(t), if m <= k then m else k, if m <= k then k else m);
        assert false;
      }
    }
  }
}
