/** inject_ebpf_filter: replace a range of instructions by others and fix the calls that cross the range. */
module Splicer {
  import opened Words
  import opened Opcodes
  import opened Ebpf
  import opened Macros
  import opened Rules

  /** A loaded program, as far as the splicer sees it. */
  class BpfProgram {
    var insns: seq<BpfInsn>

    constructor (code: seq<BpfInsn>)
      ensures insns == code
    {
      insns := code;
    }
  }

  predicate IsSubprogCall(insn: BpfInsn) {
    Class(insn.code) == BPF_JMP && Op(insn.code) == BPF_CALL && Src(insn.code) == BPF_K &&
    insn.src == BPF_PSEUDO_CALL && insn.dst == 0 && insn.off == 0
  }

  /** A subprogram call, field by field. */
  predicate CallsSubprog(insn: BpfInsn) { insn == BpfInsn(0x85, 0, 1, 0, insn.imm) }

  lemma SubprogCallShape(insn: BpfInsn)
    ensures IsSubprogCall(insn) <==> CallsSubprog(insn)
  {
  }

  /** Calls before the range; `i + imm` is unsigned 64-bit arithmetic and `imm` a 32-bit field. */
  function FixedBefore(insn: BpfInsn, i: nat, position: nat, delta: int): BpfInsn {
    if IsSubprogCall(insn) && ToU64(i + insn.imm) > position then insn.(imm := ToS32(insn.imm + delta)) else insn
  }

  function FixedAfter(insn: BpfInsn, i: nat, position: nat, delta: int): BpfInsn {
    if IsSubprogCall(insn) && ToU64(i + insn.imm) < position then insn.(imm := ToS32(insn.imm - delta)) else insn
  }

  /** The program with `origLen` instructions at `position` replaced by `insns`. */
  function Inject(code: seq<BpfInsn>, position: nat, origLen: nat, insns: seq<BpfInsn>): (r: seq<BpfInsn>)
    requires position + origLen <= |code|
    ensures |r| == |code| - origLen + |insns|
  {
    var delta, rest := |insns| - origLen, position + origLen;
    seq(position, i requires 0 <= i < position => FixedBefore(code[i], i, position, delta)) +
    insns +
    seq(|code| - rest, j requires 0 <= j < |code| - rest => FixedAfter(code[rest + j], rest + j, position, delta))
  }

  lemma InjectAt(code: seq<BpfInsn>, position: nat, origLen: nat, insns: seq<BpfInsn>, i: nat)
    requires position + origLen <= |code|
    ensures var r, delta := Inject(code, position, origLen, insns), |insns| - origLen;
      (i < position ==> r[i] == FixedBefore(code[i], i, position, delta)) &&
      (i < |insns| ==> r[position + i] == insns[i]) &&
      (position + origLen <= i < |code| ==>
        0 <= i + delta < |r| && r[i + delta] == FixedAfter(code[i], i, position, delta))
  {
    hide FixedBefore, FixedAfter;
    var r, delta, rest := Inject(code, position, origLen, insns), |insns| - origLen, position + origLen;
    if rest <= i < |code| {
      var j := i - rest;
      assert r[position + |insns| + j] == FixedAfter(code[rest + j], rest + j, position, delta);
    }
  }

  /** Step 1: the instructions before the range, calls crossing it forward adjusted. */
  method CopyBefore(newInsns: array<BpfInsn>, oldData: seq<BpfInsn>, position: nat, delta: int)
    requires position <= |oldData| && position <= newInsns.Length
    modifies newInsns
    ensures forall p | 0 <= p < position :: newInsns[p] == FixedBefore(oldData[p], p, position, delta)
  {
    hide IsSubprogCall, ToU64, ToS32;
    for i := 0 to position
      invariant forall p | 0 <= p < i :: newInsns[p] == FixedBefore(oldData[p], p, position, delta)
    {
      newInsns[i] := oldData[i];
      if IsSubprogCall(newInsns[i]) {
        if ToU64(i + newInsns[i].imm) > position {
          newInsns[i] := newInsns[i].(imm := ToS32(newInsns[i].imm + delta));
        }
      }
    }
  }

  /** Step 2: the new instructions. */
  method CopyInserted(newInsns: array<BpfInsn>, position: nat, insns: seq<BpfInsn>)
    requires position + |insns| <= newInsns.Length
    modifies newInsns
    ensures forall p | 0 <= p < position :: newInsns[p] == old(newInsns[p])
    ensures forall p | position <= p < position + |insns| :: newInsns[p] == insns[p - position]
  {
    for i := 0 to |insns|
      invariant forall p | 0 <= p < position :: newInsns[p] == old(newInsns[p])
      invariant forall p | position <= p < position + i :: newInsns[p] == insns[p - position]
    {
      newInsns[position + i] := insns[i];
    }
  }

  /** Step 3: the instructions behind the range, calls crossing it backward adjusted. */
  method CopyAfter(newInsns: array<BpfInsn>, oldData: seq<BpfInsn>, position: nat, origLen: nat, delta: int)
    requires position + origLen <= |oldData| && newInsns.Length == |oldData| + delta && 0 <= origLen + delta
    modifies newInsns
    ensures forall p | 0 <= p < position + origLen + delta :: newInsns[p] == old(newInsns[p])
    ensures forall p | position + origLen + delta <= p < newInsns.Length ::
      newInsns[p] == FixedAfter(oldData[p - delta], p - delta, position, delta)
  {
    hide IsSubprogCall, ToU64, ToS32;
    for i := position + origLen to |oldData|
      invariant forall p | 0 <= p < position + origLen + delta :: newInsns[p] == old(newInsns[p])
      invariant forall p | position + origLen + delta <= p < i + delta ::
        newInsns[p] == FixedAfter(oldData[p - delta], p - delta, position, delta)
    {
      var newIdx := i + delta;
      newInsns[newIdx] := oldData[i];
      if IsSubprogCall(newInsns[newIdx]) {
        if ToU64(i + newInsns[newIdx].imm) < position {
          newInsns[newIdx] := newInsns[newIdx].(imm := ToS32(newInsns[newIdx].imm - delta));
        }
      }
    }
  }

  method InjectEbpfFilter(prog: BpfProgram, position: Word64, origLen: Word64, insns: seq<BpfInsn>) returns (ret: int)
    requires position + origLen < TWO64 || ToU64(position + origLen) > |prog.insns|
    modifies prog
    ensures ToU64(position + origLen) > |old(prog.insns)| ==> ret == -EINVAL && prog.insns == old(prog.insns)
    ensures ToU64(position + origLen) <= |old(prog.insns)| ==>
      ret == 0 && prog.insns == Inject(old(prog.insns), position, origLen, insns)
  {
    hide FixedBefore, FixedAfter;
    var oldData := prog.insns;
    var oldLen := |oldData|;
    if ToU64(position + origLen) > oldLen {
      return -EINVAL;
    }
    var newLen := oldLen - origLen + |insns|;
    var newInsns := new BpfInsn[newLen](_ => BpfInsn(0, 0, 0, 0, 0));
    var delta := |insns| - origLen;
    CopyBefore(newInsns, oldData, position, delta);
    CopyInserted(newInsns, position, insns);
    CopyAfter(newInsns, oldData, position, origLen, delta);
    assert newInsns[..] == Inject(oldData, position, origLen, insns);
    prog.insns := newInsns[..];
    ret := 0;
  }

  // ----- what injection preserves -----

  predicate Outside(position: nat, origLen: nat, i: int) { i < position || position + origLen <= i }

  predicate StrictlyInside(position: nat, origLen: nat, target: int) { position < target < position + origLen }

  /** Where an instruction outside the range goes, and where a target goes: the start of the range stays put. */
  function Moved(position: int, delta: int, i: int): int { if i < position then i else i + delta }

  function TargetImage(position: int, delta: int, target: int): int {
    if target <= position then target else target + delta
  }

  function CallTarget(code: seq<BpfInsn>, i: int): int
    requires 0 <= i < |code|
  {
    i + 1 + code[i].imm
  }

  /** The new code stands at the position, and every instruction outside the range keeps all its fields, except
      that a subprogram call may get a new `imm`. */
  lemma InjectKeepsTheRest(code: seq<BpfInsn>, position: nat, origLen: nat, insns: seq<BpfInsn>, i: nat)
    requires position + origLen <= |code|
    ensures CodeAt(Inject(code, position, origLen, insns), position, insns)
    ensures i < |code| && Outside(position, origLen, i) ==>
      var r, m := Inject(code, position, origLen, insns), Moved(position, |insns| - origLen, i);
      0 <= m < |r| && r[m] == (if CallsSubprog(code[i]) then code[i].(imm := r[m].imm) else code[i])
  {
    hide IsSubprogCall, Inject;
    InjectAt(code, position, origLen, insns, i);
    if i < |code| {
      SubprogCallShape(code[i]);
    }
    var r := Inject(code, position, origLen, insns);
    forall p | 0 <= p < |insns| ensures r[position + p] == insns[p] {
      InjectAt(code, position, origLen, insns, p);
    }
    assert r[position..position + |insns|] == insns;
  }

  /** A call outside the range still reaches its target if and only if nothing moves, or it neither targets
      instruction 0 (where `i + imm` wraps around) nor, from before a range of at most one instruction, the
      instruction right after `position`. */
  lemma CallRelocatedExactly(code: seq<BpfInsn>, position: nat, origLen: nat, insns: seq<BpfInsn>, i: nat)
    requires position + origLen <= |code| && |code| + |insns| < TWO31
    requires i < |code| && Outside(position, origLen, i) && CallsSubprog(code[i])
    requires 0 <= CallTarget(code, i) <= |code| && !StrictlyInside(position, origLen, CallTarget(code, i))
    ensures var r, delta, target := Inject(code, position, origLen, insns), |insns| - origLen, CallTarget(code, i);
      CallTarget(r, Moved(position, delta, i)) == TargetImage(position, delta, target) <==>
        delta == 0 || !(target == 0 || (i < position && target == position + 1 && origLen <= 1))
  {
    hide IsSubprogCall, Inject, ToU64, ToS32;
    SubprogCallShape(code[i]);
    InjectAt(code, position, origLen, insns, i);
    CalleeUnsigned(code, i);
    var imm, delta := code[i].imm, |insns| - origLen;
    if i < position {
      S32Same(imm + delta);
    } else {
      S32Same(imm - delta);
    }
  }

  /** What happens to every instruction outside the range, by its fields: a subprogram call to `t` gets the length
      difference added if it stands before the range and `t` is at most 0 or beyond `position + 1`, or subtracted if
      it stands behind the range and `t` is from 1 to `position`. Everything else stays as it is. */
  lemma CallFieldExactly(code: seq<BpfInsn>, position: nat, origLen: nat, insns: seq<BpfInsn>, i: nat)
    requires position + origLen <= |code| < TWO31 && i < |code| && Outside(position, origLen, i)
    ensures var r, delta := Inject(code, position, origLen, insns), |insns| - origLen;
      var t := i + 1 + code[i].imm;
      var change := if i < position then if t <= 0 || position + 1 < t then delta else 0
                    else if 1 <= t <= position then -delta else 0;
      r[if i < position then i else i + delta] ==
        if code[i] == BpfInsn(0x85, 0, 1, 0, code[i].imm) then BpfInsn(0x85, 0, 1, 0, ToS32(code[i].imm + change))
        else code[i]
  {
    hide IsSubprogCall, Inject, ToS32;
    SubprogCallShape(code[i]);
    InjectAt(code, position, origLen, insns, i);
    S32Same(code[i].imm);
  }

  /** `i + imm` as a `size_t`: one below the target, or the largest value for target 0. */
  lemma CalleeUnsigned(code: seq<BpfInsn>, i: nat)
    requires i < |code| < TWO31 && 0 <= CallTarget(code, i)
    ensures ToU64(i + code[i].imm) == if CallTarget(code, i) == 0 then TWO64 - 1 else CallTarget(code, i) - 1
  {
    var target := CallTarget(code, i);
    if target > 0 {
      U64Same(target - 1);
    } else {
      assert ToU64(-1) == TWO64 - 1;
    }
  }

  /** The failing case is real: a call to instruction 0 is sent elsewhere by growing a later range. */
  lemma CallToEntryBreaks()
    ensures var call := BpfInsn(0x85, 0, 1, 0, -1);
      var code := [call, ExitInsn(), ExitInsn(), ExitInsn()];
      var r := Inject(code, 1, 2, [ExitInsn(), ExitInsn(), ExitInsn()]);
      CallTarget(code, 0) == 0 && CallTarget(r, 0) == 1
  {
    assert ToU64(-1) == TWO64 - 1;
  }

  /** So is the other one: from before a range of one instruction, a call to the instruction behind it stays
      behind when the range grows. */
  lemma ShortRangeMissesCall()
    ensures var call := BpfInsn(0x85, 0, 1, 0, 1);
      var code := [call, ExitInsn(), ExitInsn(), ExitInsn()];
      var r := Inject(code, 1, 1, [ExitInsn(), ExitInsn()]);
      CallTarget(code, 0) == 2 && TargetImage(1, 1, 2) == 3 && CallTarget(r, 0) == 2
  {
    U64Same(1);
  }

  /** An ordinary jump is never adjusted: it keeps its target exactly when it does not cross the range. */
  lemma JumpKeptExactly(code: seq<BpfInsn>, position: nat, origLen: nat, insns: seq<BpfInsn>, i: nat)
    requires position + origLen <= |code| && i < |code| && Outside(position, origLen, i) && IsJump(code[i])
    ensures var r, delta, target := Inject(code, position, origLen, insns), |insns| - origLen, i + 1 + code[i].off;
      var m := Moved(position, delta, i);
      0 <= m < |r| && r[m] == code[i] &&
      (m + 1 + r[m].off == TargetImage(position, delta, target) <==>
        delta == 0 || (i < position <==> target <= position))
  {
    hide Inject;
    InjectAt(code, position, origLen, insns, i);
    SubprogCallShape(code[i]);
  }

  /** A jump over a range that grows lands before its old target. */
  lemma CrossingJumpBreaks()
    ensures var code := [Ja(2), ExitInsn(), ExitInsn(), ExitInsn()];
      var r := Inject(code, 1, 2, [ExitInsn(), ExitInsn(), ExitInsn()]);
      0 + 1 + code[0].off == 3 && TargetImage(1, 1, 3) == 4 && 0 + 1 + r[0].off == 3
  {
  }
}
