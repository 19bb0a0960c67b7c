/** Code runs the same wherever it is placed: every emitted jump is relative. */
module Relocation {
  import opened Words
  import opened Opcodes
  import opened Ebpf
  import opened Rules

  /** The surroundings of code placed at `base`, as seen from its own first instruction. */
  function Seen(env: Env, base: int): Env {
    env.(clobber := (r: int, pc: int) => env.clobber(r, pc + base))
  }

  function Placed(s: State, base: int): State { s.(pc := s.pc + base) }

  function PlacedConfig(c: Config, base: int): Config {
    if c.Running? then Running(Placed(c.state, base)) else c
  }

  lemma ExecRelocated(env: Env, base: int, s: State, insn: BpfInsn)
    ensures Exec(env, Placed(s, base), insn) == PlacedConfig(Exec(Seen(env, base), s, insn), base)
  {
    hide ExecAlu, JumpTaken, Class, Op, Mode, ToU64, LoadFrame, StoreFrame, Encode, Pow256, ProbeRead;
    ProbeRelocated(env, base, s);
  }

  lemma ProbeRelocated(env: Env, base: int, s: State)
    ensures ProbeRead(env, Placed(s, base)) == PlacedConfig(ProbeRead(Seen(env, base), s), base)
  {
    hide StoreFrame;
    MappedSeen(env, base, s.regs[3], s.regs[2]);
  }

  lemma MappedSeen(env: Env, base: int, addr: Word64, size: nat)
    ensures Mapped(env, addr, size) == Mapped(Seen(env, base), addr, size)
    ensures Mapped(env, addr, size) ==> KernelBytes(env, addr, size) == KernelBytes(Seen(env, base), addr, size)
  {
    hide Plus;
  }

  /** As long as the code alone has not left itself, it does the same at `base` of a larger program. */
  lemma {:induction false} RunRelocated(code: seq<BpfInsn>, env: Env, base: int, part: seq<BpfInsn>, s: State, n: nat)
    requires CodeAt(code, base, part) && !Run(part, Seen(env, base), s, n).OffEnd?
    ensures Run(code, env, Placed(s, base), n) == PlacedConfig(Run(part, Seen(env, base), s, n), base)
    decreases n
  {
    hide Exec, Seen, CodeAt;
    RunUnfold(code, env, Placed(s, base), n);
    RunUnfold(part, Seen(env, base), s, n);
    if n > 0 {
      if !(0 <= s.pc < |part|) {
        assert false;
      }
      Fetch(code, base, part);
      ExecRelocated(env, base, s, part[s.pc]);
      if Step(part, Seen(env, base), s).Running? {
        RunRelocated(code, env, base, part, Step(part, Seen(env, base), s).state, n - 1);
      }
    }
  }
}
