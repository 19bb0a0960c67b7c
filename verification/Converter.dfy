/** bpf_convert.c as it runs: a growing instruction pointer, backpatched failure jumps, an address table
    filled while it is read, and repeated passes. */
module Converter {
  import opened Words
  import opened Opcodes
  import opened Ebpf
  import opened Macros
  import opened Cbpf
  import opened Translation
  import opened ClassicTable

  /** An `int *` argument. */
  class IntRef {
    var value: int

    constructor (v: int)
      ensures value == v
    {
      value := v;
    }
  }

  const ZERO_INSN := BpfInsn(0, 0, 0, 0, 0)

  /** `*(*insn)++ = x` */
  method Emit(buf: array<BpfInsn>, insn: nat, x: BpfInsn) returns (next: nat)
    requires insn < buf.Length
    modifies buf
    ensures next == insn + 1
    ensures buf[..next] == old(buf[..insn]) + [x]
    ensures forall j | next <= j < buf.Length :: buf[j] == old(buf[j])
  {
    buf[insn] := x;
    next := insn + 1;
  }

  method EmitEpilogueFail(buf: array<BpfInsn>, insn: nat) returns (next: nat)
    requires insn + 2 <= buf.Length
    modifies buf
    ensures next == insn + 2
    ensures buf[..next] == old(buf[..insn]) + EpilogueFail()
  {
    next := Emit(buf, insn, Mov64Imm(0, 0));
    next := Emit(buf, next, ExitInsn());
  }

  // ----- packet load -----

  /** The failure jumps of a packet load, by their opcodes. */
  predicate IsFailJump(insn: BpfInsn) {
    insn.code == BPF_JMP + BPF_JLT + BPF_X || insn.code == BPF_JMP + BPF_JGT + BPF_X ||
    insn.code == BPF_JMP + BPF_JNE + BPF_K || insn.code == BPF_JMP32 + BPF_JSLT + BPF_K
  }

  /** Code as first emitted, failure jumps still without their offset. */
  function Unlinked(code: seq<BpfInsn>): (r: seq<BpfInsn>)
    ensures |r| == |code|
  {
    seq(|code|, q requires 0 <= q < |code| => if IsFailJump(code[q]) then code[q].(off := 0) else code[q])
  }

  lemma UnlinkedConcat(a: seq<BpfInsn>, b: seq<BpfInsn>)
    ensures Unlinked(a + b) == Unlinked(a) + Unlinked(b)
  {
  }

  /** The part of a packet load before its failure epilogue. */
  function LoadHead(code: Word16, imm: Int32): seq<BpfInsn> {
    LoadOffset(Mode(code) == BPF_IND, imm) + CheckEnd(SizeBytes(code)) + CheckBounds() + Probe(SizeBytes(code))
  }

  /** Where the failure jumps are. */
  function FailPositions(ind: bool): seq<nat> {
    if ind then [3, 4, 7, 10, 12, 19] else [1, 4, 7, 9, 16]
  }

  /** Failure jumps stand at those positions, each with the distance to the epilogue as its offset. */
  predicate LinksTo(part: seq<BpfInsn>, start: int, fails: seq<nat>, target: int) {
    forall q | 0 <= q < |part| ::
      (IsFailJump(part[q]) <==> start + q in fails) &&
      (IsFailJump(part[q]) ==> part[q].off == target - (start + q) - 1)
  }

  lemma LinksConcat(a: seq<BpfInsn>, b: seq<BpfInsn>, start: int, fails: seq<nat>, target: int)
    requires LinksTo(a, start, fails, target) && LinksTo(b, start + |a|, fails, target)
    ensures LinksTo(a + b, start, fails, target)
  {
    hide IsFailJump;
    forall q | 0 <= q < |a + b|
      ensures (IsFailJump((a + b)[q]) <==> start + q in fails) &&
              (IsFailJump((a + b)[q]) ==> (a + b)[q].off == target - (start + q) - 1)
    {
      if q >= |a| {
        assert (a + b)[q] == b[q - |a|];
        assert start + q == start + |a| + (q - |a|);
      }
    }
  }

  lemma HeadLinks(code: Word16, imm: Int32)
    requires IsPacketLoad(code)
    ensures LinksTo(LoadHead(code, imm), 0, FailPositions(Mode(code) == BPF_IND), |LoadHead(code, imm)|)
  {
    hide LoadOffset, CheckEnd, CheckBounds, Probe;
    var ind := Mode(code) == BPF_IND;
    var a, b, c, d := LoadOffset(ind, imm), CheckEnd(SizeBytes(code)), CheckBounds(), Probe(SizeBytes(code));
    OffsetLinks(ind, imm);
    EndLinks(ind, SizeBytes(code));
    BoundsLinks(ind);
    ProbeLinks(ind, SizeBytes(code));
    var fails, target := FailPositions(ind), |LoadHead(code, imm)|;
    LinksConcat(a, b, 0, fails, target);
    LinksConcat(a + b, c, 0, fails, target);
    LinksConcat(a + b + c, d, 0, fails, target);
  }

  lemma OffsetLinks(ind: bool, imm: Int32)
    ensures |LoadOffset(ind, imm)| == if ind then 4 else 1
    ensures LinksTo(LoadOffset(ind, imm), 0, FailPositions(ind), if ind then 21 else 18)
  {
  }

  lemma EndLinks(ind: bool, size: Byte)
    ensures var s := if ind then 4 else 1;
      |CheckEnd(size)| == 4 && LinksTo(CheckEnd(size), s, FailPositions(ind), s + 17)
  {
  }

  lemma BoundsLinks(ind: bool)
    ensures var s := if ind then 4 else 1;
      |CheckBounds()| == 5 && LinksTo(CheckBounds(), s + 4, FailPositions(ind), s + 17)
  {
  }

  lemma ProbeLinks(ind: bool, size: Byte)
    ensures var s := if ind then 4 else 1;
      |Probe(size)| == 8 && LinksTo(Probe(size), s + 9, FailPositions(ind), s + 17)
  {
  }

  /** What stands in the buffer before backpatching. */
  lemma OffsetDraft(ind: bool, imm: Int32)
    ensures Unlinked(LoadOffset(ind, imm)) ==
      if ind then [Mov32Reg(2, REG_X), Mov32Reg(1, 2), Alu32Imm(BPF_ADD, 2, imm), JmpReg(BPF_JLT, 2, 1, 0)]
      else [Mov32Imm(2, imm)]
  {
  }

  lemma EndDraft(size: Byte)
    ensures Unlinked(CheckEnd(size)) ==
      [Jmp32Imm(BPF_JSLT, 2, 0, 0), Mov32Reg(3, 2), Alu32Imm(BPF_ADD, 3, size), JmpReg(BPF_JLT, 3, 2, 0)]
  {
  }

  lemma BoundsDraft()
    ensures Unlinked(CheckBounds()) ==
      [LdxMem(BPF_DW, 4, REG_FP, DATA_SLOT), LdxMem(BPF_DW, 5, REG_FP, DATA_END_SLOT),
       JmpReg(BPF_JLT, 5, 4, 0), Alu64Reg(BPF_SUB, 5, 4), JmpReg(BPF_JGT, 3, 5, 0)]
  {
  }

  lemma ProbeDraft(size: Byte)
    ensures Unlinked(Probe(size)) ==
      [Mov64Reg(1, REG_FP), Alu64Imm(BPF_ADD, 1, BUFFER_SLOT), Mov64Reg(3, 4), Alu64Reg(BPF_ADD, 3, 2),
       Mov64Imm(2, size), EmitCall(BPF_FUNC_probe_read_kernel), JmpImm(BPF_JNE, 0, 0, 0), Ja(2)]
  {
  }

  lemma RecordedPositions(base: nat, ind: bool)
    ensures Shifted(FailPositions(ind), base) ==
      if ind then [base + 3, base + 4, base + 7, base + 10, base + 12, base + 19]
      else [base + 1, base + 4, base + 7, base + 9, base + 16]
  {
  }

  predicate AllBelow(positions: seq<nat>, bound: nat) {
    forall j | 0 <= j < |positions| :: positions[j] < bound
  }

  function Shifted(positions: seq<nat>, base: nat): (r: seq<nat>)
    ensures |r| == |positions|
  {
    seq(|positions|, j requires 0 <= j < |positions| => base + positions[j])
  }

  /** Code in which the first `n` failure jumps have been given their offset. */
  function Patched(head: seq<BpfInsn>, fails: seq<nat>, n: nat): (r: seq<BpfInsn>)
    requires n <= |fails|
    ensures |r| == |head|
  {
    seq(|head|, q requires 0 <= q < |head| => if q in fails[..n] then head[q] else Unlinked(head)[q])
  }

  lemma PatchStep(head: seq<BpfInsn>, fails: seq<nat>, n: nat)
    requires LinksTo(head, 0, fails, |head|) && AllBelow(fails, |head|) && n < |fails| && |head| < 0x8000
    ensures var q, before := fails[n], Patched(head, fails, n);
      Patched(head, fails, n + 1) == before[q := before[q].(off := |head| - q - 1)]
  {
    hide IsFailJump;
    var q := fails[n];
    assert IsFailJump(head[q]) && head[q].off == |head| - q - 1;
    assert fails[..n + 1] == fails[..n] + [q];
  }

  lemma AllPatched(head: seq<BpfInsn>, fails: seq<nat>)
    requires LinksTo(head, 0, fails, |head|)
    ensures Patched(head, fails, 0) == Unlinked(head) && Patched(head, fails, |fails|) == head
  {
    hide IsFailJump;
    assert fails[..|fails|] == fails;
  }

  /** The backpatching loop: each recorded jump gets its distance to the failure epilogue. */
  method Backpatch(buf: array<BpfInsn>, failJmps: array<nat>, failCnt: nat, failTarget: nat,
                   ghost insn: nat, ghost head: seq<BpfInsn>, ghost fails: seq<nat>)
    requires failCnt <= failJmps.Length && failJmps[..failCnt] == Shifted(fails, insn)
    requires failTarget == insn + |head| <= buf.Length && |head| < 0x8000
    requires LinksTo(head, 0, fails, |head|) && AllBelow(fails, |head|)
    requires buf[insn..failTarget] == Unlinked(head)
    modifies buf
    ensures buf[..] == old(buf[..insn]) + head + old(buf[failTarget..])
  {
    hide Patched, Unlinked, LinksTo;
    ghost var low, high := buf[..insn], buf[failTarget..];
    AllPatched(head, fails);
    for j := 0 to failCnt
      invariant buf[..] == low + Patched(head, fails, j) + high
    {
      var at := failJmps[j];
      assert at == failJmps[..failCnt][j] == insn + fails[j];
      PatchStep(head, fails, j);
      assert buf[..][at] == Patched(head, fails, j)[fails[j]];
      buf[at] := buf[at].(off := failTarget - (at + 1));
    }
  }

  /** Step 1: the packet offset, into R2. */
  method EmitOffset(buf: array<BpfInsn>, insn: nat, failJmps: array<nat>, code: Word16, imm: Int32)
    returns (next: nat, failCnt: nat)
    requires insn + |LoadOffset(Mode(code) == BPF_IND, imm)| <= buf.Length && 1 <= failJmps.Length
    modifies buf, failJmps
    ensures next == insn + |LoadOffset(Mode(code) == BPF_IND, imm)|
    ensures buf[..next] == old(buf[..insn]) + Unlinked(LoadOffset(Mode(code) == BPF_IND, imm))
    ensures failCnt <= 1 && failJmps[..failCnt] == if Mode(code) == BPF_IND then [insn + 3] else []
  {
    hide Unlinked, LoadOffset, Mode;
    OffsetDraft(Mode(code) == BPF_IND, imm);
    failCnt := 0;
    if Mode(code) == BPF_IND {
      next := Emit(buf, insn, Mov32Reg(2, REG_X));
      next := Emit(buf, next, Mov32Reg(1, 2));
      next := Emit(buf, next, Alu32Imm(BPF_ADD, 2, imm));
      failJmps[failCnt], failCnt := next, failCnt + 1;
      next := Emit(buf, next, JmpReg(BPF_JLT, 2, 1, 0));
    } else {
      next := Emit(buf, insn, Mov32Imm(2, imm));
    }
  }

  /** Step 2: reject offsets from 2^31 up, and compute the end offset, into R3. */
  method EmitEnd(buf: array<BpfInsn>, insn: nat, failJmps: array<nat>, cnt: nat, size: Byte)
    returns (next: nat, failCnt: nat)
    requires insn + |CheckEnd(size)| <= buf.Length && cnt + 2 <= failJmps.Length
    modifies buf, failJmps
    ensures next == insn + |CheckEnd(size)|
    ensures buf[..next] == old(buf[..insn]) + Unlinked(CheckEnd(size))
    ensures failCnt == cnt + 2 && failJmps[..failCnt] == old(failJmps[..cnt]) + [insn, insn + 3]
  {
    hide Unlinked, CheckEnd;
    EndDraft(size);
    failJmps[cnt] := insn;
    next := Emit(buf, insn, Jmp32Imm(BPF_JSLT, 2, 0, 0));
    next := Emit(buf, next, Mov32Reg(3, 2));
    next := Emit(buf, next, Alu32Imm(BPF_ADD, 3, size));
    failJmps[cnt + 1] := next;
    next := Emit(buf, next, JmpReg(BPF_JLT, 3, 2, 0));
    failCnt := cnt + 2;
  }

  /** Step 3: compare the end offset with data_end - data. */
  method EmitBounds(buf: array<BpfInsn>, insn: nat, failJmps: array<nat>, cnt: nat)
    returns (next: nat, failCnt: nat)
    requires insn + |CheckBounds()| <= buf.Length && cnt + 2 <= failJmps.Length
    modifies buf, failJmps
    ensures next == insn + |CheckBounds()|
    ensures buf[..next] == old(buf[..insn]) + Unlinked(CheckBounds())
    ensures failCnt == cnt + 2 && failJmps[..failCnt] == old(failJmps[..cnt]) + [insn + 2, insn + 4]
  {
    hide Unlinked, CheckBounds;
    BoundsDraft();
    next := Emit(buf, insn, LdxMem(BPF_DW, 4, REG_FP, DATA_SLOT));
    next := Emit(buf, next, LdxMem(BPF_DW, 5, REG_FP, DATA_END_SLOT));
    failJmps[cnt] := next;
    next := Emit(buf, next, JmpReg(BPF_JLT, 5, 4, 0));
    next := Emit(buf, next, Alu64Reg(BPF_SUB, 5, 4));
    failJmps[cnt + 1] := next;
    next := Emit(buf, next, JmpReg(BPF_JGT, 3, 5, 0));
    failCnt := cnt + 2;
  }

  /** Step 4, the arguments of the probe read: to the load buffer, from data + offset, `size` bytes. */
  method EmitProbeArgs(buf: array<BpfInsn>, insn: nat, size: Byte) returns (next: nat)
    requires insn + 5 <= buf.Length
    modifies buf
    ensures next == insn + 5
    ensures buf[..next] == old(buf[..insn]) + [Mov64Reg(1, REG_FP), Alu64Imm(BPF_ADD, 1, BUFFER_SLOT), Mov64Reg(3, 4),
                                               Alu64Reg(BPF_ADD, 3, 2), Mov64Imm(2, size)]
  {
    next := Emit(buf, insn, Mov64Reg(1, REG_FP));
    next := Emit(buf, next, Alu64Imm(BPF_ADD, 1, BUFFER_SLOT));
    next := Emit(buf, next, Mov64Reg(3, 4));
    next := Emit(buf, next, Alu64Reg(BPF_ADD, 3, 2));
    next := Emit(buf, next, Mov64Imm(2, size));
  }

  /** Step 4: the probe read, and the jump over the failure epilogue. */
  method EmitProbe(buf: array<BpfInsn>, insn: nat, failJmps: array<nat>, cnt: nat, size: Byte)
    returns (next: nat, failCnt: nat)
    requires insn + |Probe(size)| <= buf.Length && cnt + 1 <= failJmps.Length
    modifies buf, failJmps
    ensures next == insn + |Probe(size)|
    ensures buf[..next] == old(buf[..insn]) + Unlinked(Probe(size))
    ensures failCnt == cnt + 1 && failJmps[..failCnt] == old(failJmps[..cnt]) + [insn + 6]
  {
    hide Unlinked, Probe;
    ProbeDraft(size);
    next := EmitProbeArgs(buf, insn, size);
    next := Emit(buf, next, EmitCall(BPF_FUNC_probe_read_kernel));
    failJmps[cnt] := next;
    next := Emit(buf, next, JmpImm(BPF_JNE, 0, 0, 0));
    next := Emit(buf, next, Ja(2));
    failCnt := cnt + 1;
  }

  lemma Joined(before: seq<BpfInsn>, a: seq<BpfInsn>, b: seq<BpfInsn>)
    ensures before + Unlinked(a) + Unlinked(b) == before + Unlinked(a + b)
  {
    hide Unlinked;
    UnlinkedConcat(a, b);
  }

  lemma HeadOfLoad(code: Word16, imm: Int32)
    ensures PacketLoad(code, imm) == LoadHead(code, imm) + EpilogueFail() + LoadValue(code)
    ensures |EpilogueFail()| == 2 && |LoadHead(code, imm)| < 100
    ensures AllBelow(FailPositions(Mode(code) == BPF_IND), |LoadHead(code, imm)|)
  {
  }

  lemma JoinedLoad(before: seq<BpfInsn>, a: seq<BpfInsn>, b: seq<BpfInsn>, c: seq<BpfInsn>)
    ensures before + a + b + c == before + (a + b + c)
  {
  }

  /** The loaded bytes into A, in host order. */
  method EmitValue(buf: array<BpfInsn>, insn: nat, code: Word16) returns (next: nat)
    requires IsPacketLoad(code) && insn + |LoadValue(code)| <= buf.Length
    modifies buf
    ensures next == insn + |LoadValue(code)|
    ensures buf[..next] == old(buf[..insn]) + LoadValue(code)
  {
    next := Emit(buf, insn, LdxMem(Size(code), REG_A, REG_FP, BUFFER_SLOT));
    if Size(code) == BPF_H {
      next := Emit(buf, next, FromBigEndian(REG_A, 16));
    } else if Size(code) == BPF_W {
      next := Emit(buf, next, FromBigEndian(REG_A, 32));
    }
  }

  /** Everything before the failure epilogue, with the positions of the failure jumps recorded. */
  method EmitHead(buf: array<BpfInsn>, insn: nat, failJmps: array<nat>, code: Word16, imm: Int32)
    returns (next: nat, failCnt: nat)
    requires IsPacketLoad(code) && insn + |LoadHead(code, imm)| <= buf.Length && failJmps.Length == 8
    modifies buf, failJmps
    ensures next == insn + |LoadHead(code, imm)|
    ensures buf[..next] == old(buf[..insn]) + Unlinked(LoadHead(code, imm))
    ensures failCnt <= 6 && failJmps[..failCnt] == Shifted(FailPositions(Mode(code) == BPF_IND), insn)
  {
    hide Unlinked, LoadOffset, CheckEnd, CheckBounds, Probe, Mode, Shifted;
    ghost var ind, before, size := Mode(code) == BPF_IND, buf[..insn], SizeBytes(code);
    ghost var a, b, c, d := LoadOffset(ind, imm), CheckEnd(size), CheckBounds(), Probe(size);
    OffsetLinks(ind, imm);
    EndLinks(ind, size);
    BoundsLinks(ind);
    ProbeLinks(ind, size);
    RecordedPositions(insn, ind);
    Joined(before, a, b);
    Joined(before, a + b, c);
    Joined(before, a + b + c, d);
    next, failCnt := EmitOffset(buf, insn, failJmps, code, imm);
    assert buf[..next] == before + Unlinked(a);
    next, failCnt := EmitEnd(buf, next, failJmps, failCnt, SizeBytes(code));
    assert buf[..next] == before + Unlinked(a + b);
    next, failCnt := EmitBounds(buf, next, failJmps, failCnt);
    assert buf[..next] == before + Unlinked(a + b + c);
    next, failCnt := EmitProbe(buf, next, failJmps, failCnt, SizeBytes(code));
    assert buf[..next] == before + Unlinked(a + b + c + d);
  }

  method EmitPacketLoad(buf: array<BpfInsn>, insn: nat, code: Word16, imm: Int32) returns (next: nat)
    requires IsPacketLoad(code) && insn + |PacketLoad(code, imm)| <= buf.Length
    modifies buf
    ensures next == insn + |PacketLoad(code, imm)|
    ensures buf[..next] == old(buf[..insn]) + PacketLoad(code, imm)
  {
    hide Unlinked, LoadHead, PacketLoad, LoadValue, LinksTo, AllBelow, FailPositions, EpilogueFail, Shifted, Mode;
    HeadLinks(code, imm);
    HeadOfLoad(code, imm);
    var failJmps := new nat[8];
    var failCnt;
    ghost var before, head := buf[..insn], LoadHead(code, imm);
    next, failCnt := EmitHead(buf, insn, failJmps, code, imm);
    assert buf[insn..next] == buf[..next][insn..];
    Backpatch(buf, failJmps, failCnt, next, insn, head, FailPositions(Mode(code) == BPF_IND));
    assert buf[..next] == before + head;
    next := EmitEpilogueFail(buf, next);
    next := EmitValue(buf, next, code);
    assert buf[..next] == before + head + EpilogueFail() + LoadValue(code);
    JoinedLoad(before, head, EpilogueFail(), LoadValue(code));
  }

  // ----- one classic instruction -----

  ghost function TableOf(addrs: array?<int>): Option<seq<int>>
    reads addrs
  {
    if addrs == null then None else Some(addrs[..])
  }

  /** BPF_EMIT_JMP: the offset of the jump at `insn` of block `i`, or failure. */
  method EmitJmpOff(buf: array<BpfInsn>, insn: nat, len: int, i: int, addrs: array?<int>, target: int)
    returns (ok: bool)
    requires insn < buf.Length && 0 <= i < len && (addrs != null ==> addrs.Length == len)
    modifies buf
    ensures ok == JumpOff(TableOf(addrs), len, i, insn, target).Some?
    ensures !ok ==> buf[..] == old(buf[..])
    ensures ok ==> buf[..] == old(buf[..][insn := buf[insn].(off := JumpOff(TableOf(addrs), len, i, insn, target).value)])
  {
    if target >= len || target < 0 {
      return false;
    }
    var off := if addrs != null then addrs[target] - addrs[i] - 1 else 0;
    off := off - insn;
    if off < -0x8000 || off > 0x7fff {
      return false;
    }
    buf[insn] := buf[insn].(off := off);
    ok := true;
  }

  /** The operands of a conditional jump; its opcode and offset are still missing. */
  method EmitCondOperands(buf: array<BpfInsn>, f: SockFilter) returns (insn: nat, bpfSrc: Byte)
    requires buf.Length == 128 && forall j | 0 <= j < buf.Length :: buf[j] == ZERO_INSN
    modifies buf
    ensures insn <= 1 && bpfSrc <= BPF_X && buf[..insn] == CondPrefix(f)
    ensures forall op: Byte, off: Int16 | op <= 0xf0 ::
      CondInsn(f, op, off) == buf[insn].(code := BPF_JMP + op + bpfSrc, off := off)
    ensures forall j | insn < j < buf.Length :: buf[j] == ZERO_INSN
  {
    insn, bpfSrc := 0, BPF_X;
    if Src(f.code) == BPF_K && ToS32(f.k) < 0 {
      insn := Emit(buf, insn, Mov32Imm(REG_TMP, ToS32(f.k)));
      buf[insn] := buf[insn].(dst := REG_A, src := REG_TMP);
    } else {
      bpfSrc := Src(f.code);
      buf[insn] := buf[insn].(dst := REG_A, imm := ToS32(f.k), src := if bpfSrc == BPF_X then REG_X else 0);
    }
  }

  /** The conditional jump cases of the switch. */
  method EmitCond(buf: array<BpfInsn>, f: SockFilter, len: int, i: int, addrs: array?<int>)
    returns (ok: bool, next: nat)
    requires IsCondJmp(f.code) && 0 <= i < len && (addrs != null ==> addrs.Length == len)
    requires buf.Length == 128 && forall j | 0 <= j < buf.Length :: buf[j] == ZERO_INSN
    modifies buf
    ensures ok == CondBlock(f, len, i, TableOf(addrs)).Some?
    ensures ok ==> next <= buf.Length && buf[..next] == CondBlock(f, len, i, TableOf(addrs)).value
  {
    hide JumpOff, CondPrefix, CondInsn;
    var insn, bpfSrc := EmitCondOperands(buf, f);
    next := insn + 1;
    if f.jf == 0 {
      buf[insn] := buf[insn].(code := BPF_JMP + Op(f.code) + bpfSrc);
      ok := EmitJmpOff(buf, insn, len, i, addrs, i + f.jt + 1);
      return;
    }
    if f.jt == 0 && (Op(f.code) == BPF_JEQ || Op(f.code) == BPF_JGT || Op(f.code) == BPF_JGE) {
      var op: Byte := if Op(f.code) == BPF_JEQ then BPF_JNE else if Op(f.code) == BPF_JGT then BPF_JLE else BPF_JLT;
      buf[insn] := buf[insn].(code := BPF_JMP + op + bpfSrc);
      ok := EmitJmpOff(buf, insn, len, i, addrs, i + f.jf + 1);
      return;
    }
    buf[insn] := buf[insn].(code := BPF_JMP + Op(f.code) + bpfSrc);
    ok := EmitJmpOff(buf, insn, len, i, addrs, i + f.jt + 1);
    if !ok {
      return;
    }
    insn := insn + 1;
    buf[insn] := buf[insn].(code := BPF_JMP + BPF_JA);
    ok := EmitJmpOff(buf, insn, len, i, addrs, i + f.jf + 1);
    next := insn + 1;
  }

  /** From the loaded byte in A to 4*(A & 0xf) in X, and the old A back from X. */
  method EmitMshTail(buf: array<BpfInsn>, insn: nat) returns (next: nat)
    requires insn + 5 <= buf.Length
    modifies buf
    ensures next == insn + 5 && buf[..next] == old(buf[..insn]) + MshTail()
  {
    next := Emit(buf, insn, Alu32Imm(BPF_AND, REG_A, 0xf));
    next := Emit(buf, next, Alu32Imm(BPF_LSH, REG_A, 2));
    next := Emit(buf, next, Mov64Reg(REG_TMP, REG_X));
    next := Emit(buf, next, Mov64Reg(REG_X, REG_A));
    next := Emit(buf, next, Mov64Reg(REG_A, REG_TMP));
  }

  method EmitMsh(buf: array<BpfInsn>, k: Word32) returns (insn: nat)
    requires buf.Length == 128
    modifies buf
    ensures insn <= buf.Length && buf[..insn] == MshBlock(k)
  {
    hide PacketLoad, ToS32, MshTail;
    PacketLoadSize(BPF_LD + BPF_ABS + BPF_B, ToS32(k));
    insn := Emit(buf, 0, Mov64Reg(REG_X, REG_A));
    insn := EmitPacketLoad(buf, insn, BPF_LD + BPF_ABS + BPF_B, ToS32(k));
    insn := EmitMshTail(buf, insn);
  }

  method EmitRet(buf: array<BpfInsn>, f: SockFilter) returns (insn: nat)
    requires IsRet(f.code) && buf.Length == 128
    modifies buf
    ensures insn <= buf.Length && buf[..insn] == RetBlock(f)
  {
    if f.code == BPF_RET + BPF_K {
      insn := Emit(buf, 0, Mov32Imm(0, if f.k != 0 then 1 else 0));
    } else {
      insn := Emit(buf, 0, JmpImm(BPF_JEQ, REG_A, 0, 2));
      insn := Emit(buf, insn, Mov32Imm(0, 1));
      insn := Emit(buf, insn, JmpImm(BPF_JA, 0, 0, 1));
      insn := Emit(buf, insn, Mov32Imm(0, 0));
    }
    insn := Emit(buf, insn, ExitInsn());
  }

  /** The switch: the block of one classic instruction into a zeroed temporary buffer. */
  method EmitBlock(buf: array<BpfInsn>, f: SockFilter, len: int, i: int, addrs: array?<int>)
    returns (ok: bool, insn: nat)
    requires 0 <= i < len && (addrs != null ==> addrs.Length == len)
    requires buf.Length == 128 && forall j | 0 <= j < buf.Length :: buf[j] == ZERO_INSN
    modifies buf
    ensures ok == Block(f, len, i, TableOf(addrs)).Some?
    ensures ok ==> insn <= buf.Length && buf[..insn] == Block(f, len, i, TableOf(addrs)).value
  {
    hide JumpOff, CondBlock, PacketLoad, ScratchOff, JaTarget, IsAlu, IsCondJmp, IsDivision;
    ok, insn := true, 0;
    if IsAlu(f.code) {
      if IsDivision(f.code) && Src(f.code) == BPF_X {
        insn := Emit(buf, insn, Mov32Reg(REG_X, REG_X));
        insn := Emit(buf, insn, JmpImm(BPF_JNE, REG_X, 0, 2));
        insn := EmitEpilogueFail(buf, insn);
      }
      insn := Emit(buf, insn, AluInsn(f));
    } else if IsPacketLoad(f.code) {
      PacketLoadSize(f.code, ToS32(f.k));
      insn := EmitPacketLoad(buf, insn, f.code, ToS32(f.k));
    } else if IsJa(f.code) {
      buf[0] := buf[0].(code := f.code);
      ok := EmitJmpOff(buf, 0, len, i, addrs, JaTarget(f, i));
      insn := 1;
    } else if IsCondJmp(f.code) {
      ok, insn := EmitCond(buf, f, len, i, addrs);
    } else if IsMsh(f.code) {
      insn := EmitMsh(buf, f.k);
    } else if IsRet(f.code) {
      insn := EmitRet(buf, f);
    } else if IsStore(f.code) {
      insn := Emit(buf, insn, StxMem(BPF_W, REG_FP, if f.code == BPF_ST then REG_A else REG_X, ScratchOff(f.k)));
    } else if IsLoadMem(f.code) {
      insn := Emit(buf, insn, LdxMem(BPF_W, if Class(f.code) == BPF_LD then REG_A else REG_X, REG_FP, ScratchOff(f.k)));
    } else if IsLoadImm(f.code) {
      insn := Emit(buf, insn, Mov32Imm(if Class(f.code) == BPF_LD then REG_A else REG_X, ToS32(f.k)));
    } else if IsTax(f.code) {
      insn := Emit(buf, insn, Mov64Reg(REG_X, REG_A));
    } else if IsTxa(f.code) {
      insn := Emit(buf, insn, Mov64Reg(REG_A, REG_X));
    } else {
      ok := false;
    }
  }

  // ----- passes -----

  method EmitPrologue(newProg: array<BpfInsn>) returns (newInsn: nat)
    requires 5 <= newProg.Length
    modifies newProg
    ensures newInsn == 5 && newProg[..5] == Prologue()
    ensures forall j | 5 <= j < newProg.Length :: newProg[j] == old(newProg[j])
  {
    newInsn := Emit(newProg, 0, StxMem(BPF_DW, REG_FP, 4, DATA_SLOT));
    newInsn := Emit(newProg, newInsn, StxMem(BPF_DW, REG_FP, 5, DATA_END_SLOT));
    newInsn := Emit(newProg, newInsn, Mov64Reg(REG_CTX, 1));
    newInsn := Emit(newProg, newInsn, Mov64Imm(REG_A, 0));
    newInsn := Emit(newProg, newInsn, Mov64Imm(REG_X, 0));
  }

  /** memcpy of a finished block. */
  method CopyBlock(to: array<BpfInsn>, at: nat, from: array<BpfInsn>, cnt: nat)
    requires to != from && cnt <= from.Length && at + cnt <= to.Length
    modifies to
    ensures to[..at + cnt] == old(to[..at]) + from[..cnt]
    ensures forall j | at + cnt <= j < to.Length :: to[j] == old(to[j])
  {
    for j := 0 to cnt
      invariant to[..at + j] == old(to[..at]) + from[..j]
      invariant forall p | at + cnt <= p < to.Length :: to[p] == old(to[p])
    {
      to[at + j] := from[j];
      assert to[..at + j + 1] == to[..at + j] + [from[j]];
    }
  }

  /** The address table of a pass before block `i`: `first` passes have only the entries before `i`. */
  ghost predicate TableReady(prog: seq<SockFilter>, tab: seq<int>, first: bool, i: int)
    requires 0 <= i <= |prog|
  {
    |tab| == |prog| &&
    forall j | 0 <= j < |prog| :: tab[j] == if first && j >= i then 0 else Addr(prog, j)
  }

  lemma EmptyTable(prog: seq<SockFilter>, tab: seq<int>)
    requires |tab| == |prog| && forall j | 0 <= j < |tab| :: tab[j] == 0
    ensures TableReady(prog, tab, true, 0)
  {
    hide Addr;
  }

  lemma TableFull(prog: seq<SockFilter>, tab: seq<int>, first: bool)
    requires TableReady(prog, tab, first, |prog|)
    ensures TableReady(prog, tab, false, 0)
  {
    hide Addr;
  }

  lemma TableDuringBlock(prog: seq<SockFilter>, tab: seq<int>, first: bool, i: int)
    requires 0 <= i < |prog| && TableReady(prog, tab, first, i)
    ensures var tab' := tab[i := Addr(prog, i)];
      TableReady(prog, tab', first, i + 1) &&
      Block(prog[i], |prog|, i, Some(tab')) == if first then FirstBlock(prog, i) else FinalBlock(prog, i)
  {
    hide Addr, Block;
    assert tab[i := Addr(prog, i)] == if first then FirstTable(prog, i) else FinalTable(prog);
  }

  predicate FirstBlocksUpTo(prog: seq<SockFilter>, i: int)
    requires 0 <= i < |prog|
  {
    forall j | 0 <= j <= i :: FirstBlock(prog, j).Some?
  }

  /** The buffer holds what the first pass writes before it ends or fails. */
  predicate HasRoom(prog: seq<SockFilter>, room: nat) {
    5 <= room && forall i | 0 <= i < |prog| && FirstBlocksUpTo(prog, i) :: Addr(prog, i + 1) <= room
  }

  lemma FullRoom(prog: seq<SockFilter>)
    ensures HasRoom(prog, OutLen(prog))
  {
    hide FirstBlocksUpTo, Addr;
    forall i | 0 <= i < |prog| && FirstBlocksUpTo(prog, i) ensures Addr(prog, i + 1) <= OutLen(prog) {
      AddrLimits(prog, i + 1);
    }
  }

  lemma EmittedAppend(prog: seq<SockFilter>, i: int, block: seq<BpfInsn>)
    requires 0 <= i < |prog| && (forall j | 0 <= j <= i :: FinalBlock(prog, j).Some?)
    requires FinalBlock(prog, i) == Some(block)
    ensures Emitted(prog, i + 1) == Emitted(prog, i) + block
  {
    hide FinalBlock, Addr, BlockLen;
    assert FinalInsns(prog, i) == block;
  }

  /** One emitting pass over the whole program. */
  method EmitPass(prog: seq<SockFilter>, newProg: array<BpfInsn>, addrs: array<int>, ghost first: bool)
    returns (ok: bool, newInsn: nat)
    requires HasRoom(prog, newProg.Length) && addrs.Length == |prog| && TableReady(prog, addrs[..], first, 0)
    requires first || forall i | 0 <= i < |prog| :: FirstBlock(prog, i).Some?
    modifies newProg, addrs
    ensures ok == forall i | 0 <= i < |prog| :: (if first then FirstBlock(prog, i) else FinalBlock(prog, i)).Some?
    ensures ok ==> newInsn == OutLen(prog) && TableReady(prog, addrs[..], false, 0)
    ensures ok && !first ==> newInsn <= newProg.Length && newProg[..newInsn] == Emitted(prog, |prog|)
    ensures forall j | OutLen(prog) <= j < newProg.Length :: newProg[j] == old(newProg[j])
  {
    hide Block, BlockLen, Addr, FirstBlock, FinalBlock, Emitted, TableReady, HasRoom;
    AddrLimits(prog, 0);
    RoomForPrologue(prog, newProg.Length);
    newInsn := EmitPrologue(newProg);
    for i := 0 to |prog|
      invariant newInsn == Addr(prog, i) <= OutLen(prog) && newInsn <= newProg.Length
      invariant TableReady(prog, addrs[..], first, i)
      invariant forall j | 0 <= j < i :: (if first then FirstBlock(prog, j) else FinalBlock(prog, j)).Some?
      invariant !first ==> newProg[..newInsn] == Emitted(prog, i)
      invariant forall j | OutLen(prog) <= j < newProg.Length :: newProg[j] == old(newProg[j])
    {
      var tmp := new BpfInsn[128](_ => ZERO_INSN);
      TableDuringBlock(prog, addrs[..], first, i);
      addrs[i] := newInsn;
      var insn;
      ok, insn := EmitBlock(tmp, prog[i], |prog|, i, addrs);
      assert ok == (if first then FirstBlock(prog, i) else FinalBlock(prog, i)).Some?;
      if !ok {
        return;
      }
      BlockHasItsLength(prog[i], |prog|, i, Some(addrs[..]));
      AddrLimits(prog, i + 1);
      RoomForBlock(prog, newProg.Length, i);
      if !first {
        EmittedAppend(prog, i, tmp[..insn]);
      }
      CopyBlock(newProg, newInsn, tmp, insn);
      newInsn := newInsn + insn;
    }
    TableFull(prog, addrs[..], first);
    ok := true;
  }

  lemma RoomForPrologue(prog: seq<SockFilter>, room: nat)
    requires HasRoom(prog, room)
    ensures 5 <= room && Emitted(prog, 0) == Prologue() && |Prologue()| == 5
  {
  }

  lemma RoomForBlock(prog: seq<SockFilter>, room: nat, i: int)
    requires HasRoom(prog, room) && 0 <= i < |prog| && forall j | 0 <= j <= i :: FirstBlock(prog, j).Some?
    ensures Addr(prog, i + 1) <= room
  {
    hide Addr, FirstBlock;
    assert FirstBlocksUpTo(prog, i);
  }

  lemma AddrLimits(prog: seq<SockFilter>, i: int)
    requires 0 <= i <= |prog|
    ensures Addr(prog, 0) == 5 && Addr(prog, i) <= OutLen(prog)
    ensures i > 0 ==> Addr(prog, i) == Addr(prog, i - 1) + BlockLen(prog[i - 1])
    decreases |prog| - i
  {
    if i < |prog| {
      AddrLimits(prog, i + 1);
    }
  }

  /** The length query: the same switch without a program to write to. */
  method QueryPass(prog: seq<SockFilter>) returns (ok: bool, newInsn: nat)
    ensures ok == forall i | 0 <= i < |prog| :: QueryBlock(prog, i).Some?
    ensures ok ==> newInsn == OutLen(prog)
  {
    hide Block, BlockLen, Addr;
    AddrLimits(prog, 0);
    newInsn := 5;
    for i := 0 to |prog|
      invariant newInsn == Addr(prog, i)
      invariant forall j | 0 <= j < i :: QueryBlock(prog, j).Some?
    {
      var tmp := new BpfInsn[128](_ => ZERO_INSN);
      var insn;
      ok, insn := EmitBlock(tmp, prog[i], |prog|, i, null);
      assert ok == QueryBlock(prog, i).Some?;
      if !ok {
        return;
      }
      BlockHasItsLength(prog[i], |prog|, i, None);
      AddrLimits(prog, i + 1);
      newInsn := newInsn + insn;
    }
    ok := true;
  }

  /** bpf_convert_filter. Without a buffer it stores the length; with one of that length it succeeds exactly on
      convertible filters, after two passes, and leaves the converted filter in the buffer. Where it fails,
      `*new_len` is never looked at. */
  method BpfConvertFilter(prog: seq<SockFilter>, newProg: array?<BpfInsn>, newLen: IntRef) returns (ret: int)
    requires newProg != null && 0 < |prog| <= BPF_MAXINSNS ==> HasRoom(prog, newProg.Length)
    requires newProg != null && Convertible(prog) ==> newProg.Length >= newLen.value == OutLen(prog)
    modifies newProg, newLen
    ensures newProg == null ==> ret == (if QueryOk(prog) then 0 else -EINVAL)
    ensures newProg == null ==> (ret == 0 <==>
      0 < |prog| <= 4096 &&
      forall i | 0 <= i < |prog| :: KnownNumber(prog[i].code) && TargetsAreIn(prog[i], i, |prog|))
    ensures newLen.value == if newProg == null && ret == 0 then OutLen(prog) else old(newLen.value)
    ensures newProg != null ==> ret == (if Convertible(prog) then 0 else -EINVAL)
    ensures newProg != null && ret == 0 ==> newProg[..newLen.value] == Output(prog)
    ensures newProg != null ==> forall j | OutLen(prog) <= j < newProg.Length :: newProg[j] == old(newProg[j])
  {
    hide Block, Addr, FirstBlock, FinalBlock, QueryBlock, Emitted, TableReady, HasRoom, KnownNumber, TargetsAreIn;
    QueryByNumber(prog);
    if |prog| <= 0 || |prog| > BPF_MAXINSNS {
      return -EINVAL;
    }
    if newProg == null {
      var ok, newInsn := QueryPass(prog);
      if !ok {
        return -EINVAL;
      }
      newLen.value := newInsn;
      return 0;
    }
    var addrs := new int[|prog|](_ => 0);
    EmptyTable(prog, addrs[..]);
    var newFlen, pass, done := 0, 0, false;
    while !done
      invariant 0 <= pass <= 2 && (done <==> pass == 2) && newFlen == (if pass == 0 then 0 else OutLen(prog))
      invariant TableReady(prog, addrs[..], pass == 0, 0)
      invariant pass >= 1 ==> forall i | 0 <= i < |prog| :: FirstBlock(prog, i).Some?
      invariant pass == 2 ==>
        Convertible(prog) && OutLen(prog) <= newProg.Length && newProg[..OutLen(prog)] == Output(prog)
      invariant newLen.value == old(newLen.value)
      invariant forall j | OutLen(prog) <= j < newProg.Length :: newProg[j] == old(newProg[j])
      decreases 3 - pass
    {
      var ok, newInsn := EmitPass(prog, newProg, addrs, pass == 0);
      if !ok {
        return -EINVAL;
      }
      pass := pass + 1;
      if newFlen != newInsn {
        newFlen := newInsn;
        if pass > 2 {
          return -EINVAL;
        }
      } else {
        done := true;
      }
    }
    assert newLen.value == newFlen;
    ret := 0;
  }

  // ----- constant filters -----

  function ConstantFilter(accept: bool): seq<BpfInsn> {
    [Mov64Imm(0, if accept then 1 else 0), ExitInsn()]
  }

  /** get_insns_for_constant_filter, with its null pointers and its buffer check. */
  method GetInsnsForConstantFilter(result: int, data: array?<BpfInsn>, len: IntRef?) returns (ret: int)
    requires data != null && len != null ==> data.Length >= len.value
    modifies data, len
    ensures len == null ==> ret == -EINVAL
    ensures len != null && data == null ==> ret == 0 && len.value == 2
    ensures len != null && data != null && old(len.value) < 2 ==>
      ret == -EINVAL && len.value == old(len.value) && data[..] == old(data[..])
    ensures len != null && data != null && old(len.value) >= 2 ==>
      ret == 0 && len.value == 2 && data[..] == ConstantFilter(result != 0) + old(data[2..])
  {
    if len == null {
      return -EINVAL;
    }
    if data == null {
      len.value := 2;
      return 0;
    }
    if len.value < 2 {
      return -EINVAL;
    }
    len.value := 2;
    data[0], data[1] := Mov64Imm(0, if result != 0 then 1 else 0), ExitInsn();
    ret := 0;
  }
}
