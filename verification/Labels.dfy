/** Label resolution, and when conversion succeeds. */
module Labels {
  import opened Words
  import opened Opcodes
  import opened Ebpf
  import opened Macros
  import opened Cbpf
  import opened Translation
  import opened Rules
  import opened PacketLoads
  import opened Blocks
  import opened Simulation

  /** A jump between blocks: its position in its block and the classic instruction it leads to. */
  datatype Label = Label(d: nat, target: int)

  /** The inter-block jumps of an instruction's block. */
  function LabelsOf(f: SockFilter, i: int): seq<Label> {
    if IsJa(f.code) then [Label(0, JaTarget(f, i))]
    else if IsCondJmp(f.code) then
      var d := |CondPrefix(f)|;
      if f.jf == 0 then [Label(d, i + f.jt + 1)]
      else if f.jt == 0 && Invertible(Op(f.code)) then [Label(d, i + f.jf + 1)]
      else [Label(d, i + f.jt + 1), Label(d + 1, i + f.jf + 1)]
    else []
  }

  /** A block is emitted exactly when its opcode is known and every one of its labels gets an offset. */
  lemma BlockNeedsItsLabels(f: SockFilter, len: int, i: int, tab: Option<seq<int>>)
    requires 0 <= i < len && (tab.Some? ==> |tab.value| == len)
    ensures Block(f, len, i, tab).Some? <==>
      Supported(f.code) && forall l | l in LabelsOf(f, i) :: JumpOff(tab, len, i, l.d, l.target).Some?
  {
    hide JumpOff, AluBlock, PacketLoad, MshBlock, RetBlock, CondPrefix, CondInsn, InvertOp, JaTarget;
    if IsCondJmp(f.code) {
      var d := |CondPrefix(f)|;
      var on, off := Label(d, i + f.jt + 1), Label(d, i + f.jf + 1);
      if f.jf == 0 {
        assert LabelsOf(f, i) == [on];
      } else if f.jt == 0 && Invertible(Op(f.code)) {
        assert LabelsOf(f, i) == [off];
      } else {
        assert LabelsOf(f, i) == [on, off.(d := d + 1)];
        assert on in LabelsOf(f, i) && off.(d := d + 1) in LabelsOf(f, i);
      }
    } else if IsJa(f.code) {
      assert LabelsOf(f, i) == [Label(0, JaTarget(f, i))];
    }
  }

  // ----- when conversion succeeds -----

  predicate TargetsInside(prog: seq<SockFilter>, i: int)
    requires 0 <= i < |prog|
  {
    Supported(prog[i].code) && forall l | l in LabelsOf(prog[i], i) :: 0 <= l.target < |prog|
  }

  /** The jump itself is within reach of the zeroed table of the first pass, and its target within reach of it. */
  predicate LabelFits(prog: seq<SockFilter>, i: int, l: Label)
    requires 0 <= i < |prog|
  {
    var at := Addr(prog, i) + l.d + 1;
    0 <= l.target < |prog| &&
    -0x8000 <= Addr(prog, l.target) - at < 0x8000 && (l.target > i ==> at <= 0x8000)
  }

  /** The length query accepts exactly the known opcodes with targets inside the program. */
  lemma QueryAccepts(prog: seq<SockFilter>, i: int)
    requires 0 <= i < |prog|
    ensures QueryBlock(prog, i).Some? <==> TargetsInside(prog, i)
  {
    hide Block, Supported;
    BlockNeedsItsLabels(prog[i], |prog|, i, None);
    forall l | l in LabelsOf(prog[i], i)
      ensures JumpOff(None, |prog|, i, l.d, l.target).Some? <==> 0 <= l.target < |prog|
    {
      LabelPosition(prog[i], i, l);
    }
  }

  lemma LabelPosition(f: SockFilter, i: int, l: Label)
    requires l in LabelsOf(f, i)
    ensures l.d < BlockLen(f) <= 3
  {
  }

  predicate LabelsFit(prog: seq<SockFilter>, i: int)
    requires 0 <= i < |prog|
  {
    forall l | l in LabelsOf(prog[i], i) :: LabelFits(prog, i, l)
  }

  lemma PassesAccept(prog: seq<SockFilter>, i: int)
    requires 0 <= i < |prog|
    ensures FirstBlock(prog, i).Some? && FinalBlock(prog, i).Some? <==>
      TargetsInside(prog, i) && LabelsFit(prog, i)
  {
    hide Block, Supported, LabelsOf, Addr;
    BlockNeedsItsLabels(prog[i], |prog|, i, Some(FirstTable(prog, i)));
    BlockNeedsItsLabels(prog[i], |prog|, i, Some(FinalTable(prog)));
    forall l | l in LabelsOf(prog[i], i)
      ensures JumpOff(Some(FirstTable(prog, i)), |prog|, i, l.d, l.target).Some? &&
              JumpOff(Some(FinalTable(prog)), |prog|, i, l.d, l.target).Some? <==>
              LabelFits(prog, i, l)
    {
    }
  }

  /** Conversion succeeds exactly when the length query does and every label fits. */
  lemma ConvertibleExactly(prog: seq<SockFilter>)
    ensures Convertible(prog) <==> QueryOk(prog) && forall i | 0 <= i < |prog| :: LabelsFit(prog, i)
  {
    hide FirstBlock, FinalBlock, QueryBlock, LabelsFit, Supported;
    forall i | 0 <= i < |prog|
      ensures FirstBlock(prog, i).Some? && FinalBlock(prog, i).Some? <==>
        QueryBlock(prog, i).Some? && LabelsFit(prog, i)
    {
      QueryAccepts(prog, i);
      PassesAccept(prog, i);
    }
  }

  lemma {:induction false} AddrGrows(prog: seq<SockFilter>, i: int, j: int)
    requires 0 <= i < j <= |prog|
    ensures Addr(prog, i) + BlockLen(prog[i]) <= Addr(prog, j)
    decreases j
  {
    hide BlockLen;
    if i + 1 < j {
      AddrGrows(prog, i, j - 1);
    }
    NextAddr(prog, j - 1);
  }

  /** Output no longer than 32768 instructions always converts once the length query has succeeded. */
  lemma ShortOutputConverts(prog: seq<SockFilter>)
    requires QueryOk(prog) && OutLen(prog) <= 0x8000
    ensures Convertible(prog)
  {
    hide LabelsOf, Addr, BlockLen, QueryBlock, Supported;
    forall i, l | 0 <= i < |prog| && l in LabelsOf(prog[i], i)
      ensures LabelFits(prog, i, l)
    {
      QueryAccepts(prog, i);
      LabelPosition(prog[i], i, l);
      AddrGrows(prog, i, |prog|);
      AddrGrows(prog, l.target, |prog|);
    }
    ConvertibleExactly(prog);
  }

  /** At most 27 instructions per classic instruction: up to 1213 of them always convert. */
  lemma SmallFiltersConvert(prog: seq<SockFilter>)
    requires QueryOk(prog) && |prog| <= 1213
    ensures Convertible(prog)
  {
    ShortOutputConverts(prog);
  }

  /** 1300 MSH loads, a jump to the next instruction, and RET. */
  function LateJump(): seq<SockFilter> {
    seq(1300, i => SockFilter(0xb1, 0, 0, 0)) + [SockFilter(0x05, 0, 0, 0), SockFilter(0x06, 0, 0, 0)]
  }

  lemma {:induction false} LateAddr(prog: seq<SockFilter>, n: nat)
    requires prog == LateJump() && n <= 1300
    ensures Addr(prog, n) == 5 + 27 * n
    decreases n
  {
    if n > 0 {
      LateAddr(prog, n - 1);
    }
  }

  /** The first pass does reject filters whose final offsets fit: this one is legal, goes forward, ends in RET and
      passes the length query, and every block exists by the final table. */
  lemma LateJumpRejected()
    ensures var prog := LateJump();
      Legal(prog) && EndsInRet(prog) && ForwardOnly(prog) && QueryOk(prog) &&
      (forall i | 0 <= i < |prog| :: FinalBlock(prog, i).Some?) && !Convertible(prog)
  {
    hide FirstBlock, FinalBlock, QueryBlock, Legal, EndsInRet, ForwardOnly;
    var prog := LateJump();
    LateIsLegal(prog);
    LateLabel(prog);
    forall i | 0 <= i < |prog| ensures QueryBlock(prog, i).Some? && FinalBlock(prog, i).Some? {
      LateBlocks(prog, i);
    }
  }

  lemma LateIsLegal(prog: seq<SockFilter>)
    requires prog == LateJump()
    ensures |prog| == 1302 && Legal(prog) && EndsInRet(prog) && ForwardOnly(prog)
  {
  }

  lemma LateLabel(prog: seq<SockFilter>)
    requires prog == LateJump()
    ensures FirstBlock(prog, 1300).None?
    ensures JumpOff(Some(FinalTable(prog)), |prog|, 1300, 0, JaTarget(prog[1300], 1300)) == Some(0)
  {
    hide Addr;
    LateAddr(prog, 1300);
    NextAddr(prog, 1300);
    assert JaTarget(prog[1300], 1300) == 1301;
    assert JumpOff(Some(FirstTable(prog, 1300)), |prog|, 1300, 0, 1301).None?;
  }

  lemma LateBlocks(prog: seq<SockFilter>, i: int)
    requires prog == LateJump() && 0 <= i < |prog|
    ensures QueryBlock(prog, i).Some? && FinalBlock(prog, i).Some?
  {
    hide Addr, FinalTable, JumpOff, JaTarget, MshBlock, RetBlock;
    LateLabel(prog);
    LateTarget(prog);
  }

  lemma LateTarget(prog: seq<SockFilter>)
    requires prog == LateJump()
    ensures JaTarget(prog[1300], 1300) == 1301 && JumpOff(None, |prog|, 1300, 0, 1301) == Some(0)
  {
  }

  // ----- where jumps lead -----

  /** Jumps of `part`, placed at `start` of a block of `total` instructions, stay inside the block. */
  predicate JumpsInside(part: seq<BpfInsn>, start: int, total: int) {
    forall p | 0 <= p < |part| && IsJump(part[p]) :: 0 <= part[p].off && start + p + 1 + part[p].off < total
  }

  lemma JumpsInsideConcat(a: seq<BpfInsn>, b: seq<BpfInsn>, start: int, total: int)
    requires JumpsInside(a, start, total) && JumpsInside(b, start + |a|, total)
    ensures JumpsInside(a + b, start, total)
  {
    forall p | 0 <= p < |a + b| && IsJump((a + b)[p])
      ensures 0 <= (a + b)[p].off && start + p + 1 + (a + b)[p].off < total
    {
      if p >= |a| {
        assert (a + b)[p] == b[p - |a|];
      }
    }
  }

  lemma LoadJumpsInside(code: Word16, imm: Int32, start: int, total: int)
    requires IsPacketLoad(code) && 0 <= start && start + |PacketLoad(code, imm)| <= total
    ensures JumpsInside(PacketLoad(code, imm), start, total)
  {
    var a, b, c := LoadOffset(Mode(code) == BPF_IND, imm), CheckEnd(SizeBytes(code)), CheckBounds();
    var d, e, f := Probe(SizeBytes(code)), EpilogueFail(), LoadValue(code);
    var s := start + |a|;
    PacketLoadLength(code, imm);
    OffsetJumps(code, imm, start, total);
    CheckJumps(code, s, total);
    ProbeJumps(code, s + 9, total);
    JumpsInsideConcat(a, b, start, total);
    JumpsInsideConcat(a + b, c, start, total);
    JumpsInsideConcat(a + b + c, d, start, total);
    JumpsInsideConcat(a + b + c + d, e, start, total);
    JumpsInsideConcat(a + b + c + d + e, f, start, total);
  }

  lemma OffsetJumps(code: Word16, imm: Int32, start: int, total: int)
    requires Mode(code) == BPF_IND ==> start + 22 <= total
    ensures JumpsInside(LoadOffset(Mode(code) == BPF_IND, imm), start, total)
  {
  }

  lemma CheckJumps(code: Word16, start: int, total: int)
    requires start + 18 <= total
    ensures JumpsInside(CheckEnd(SizeBytes(code)), start, total)
    ensures JumpsInside(CheckBounds(), start + 4, total)
  {
  }

  lemma ProbeJumps(code: Word16, start: int, total: int)
    requires IsPacketLoad(code) && start + 11 <= total
    ensures JumpsInside(Probe(SizeBytes(code)), start, total)
    ensures JumpsInside(EpilogueFail(), start + 8, total)
    ensures JumpsInside(LoadValue(code), start + 10, total)
  {
  }

  lemma MshJumpsInside(k: Word32)
    ensures JumpsInside(MshBlock(k), 0, 27) && |MshBlock(k)| == 27
  {
    hide PacketLoad;
    var code: Word16, load := BPF_LD + BPF_ABS + BPF_B, PacketLoad(BPF_LD + BPF_ABS + BPF_B, ToS32(k));
    PacketLoadLength(code, ToS32(k));
    LoadJumpsInside(code, ToS32(k), 1, 27);
    JumpsInsideConcat([Mov64Reg(REG_X, REG_A)], load, 0, 27);
    JumpsInsideConcat([Mov64Reg(REG_X, REG_A)] + load, MshTail(), 0, 27);
  }

  /** Blocks without labels keep their jumps to themselves. */
  lemma LocalJumps(prog: seq<SockFilter>, i: int)
    requires 0 <= i < |prog| && FinalBlock(prog, i).Some?
    requires !IsJa(prog[i].code) && !IsCondJmp(prog[i].code)
    ensures JumpsInside(FinalBlock(prog, i).value, 0, |FinalBlock(prog, i).value|)
  {
    hide PacketLoad, MshBlock, AluBlock, ScratchOff, RetBlock;
    var f := prog[i];
    if IsAlu(f.code) {
      AluJumpsInside(f);
    } else if IsPacketLoad(f.code) {
      LoadJumpsInside(f.code, ToS32(f.k), 0, |PacketLoad(f.code, ToS32(f.k))|);
    } else if IsMsh(f.code) {
      MshJumpsInside(f.k);
    } else if IsRet(f.code) {
      RetJumpsInside(f);
    }
  }

  lemma AluJumpsInside(f: SockFilter)
    requires IsAlu(f.code)
    ensures JumpsInside(AluBlock(f), 0, |AluBlock(f)|)
  {
    assert !IsJump(AluInsn(f));
  }

  lemma RetJumpsInside(f: SockFilter)
    requires IsRet(f.code)
    ensures JumpsInside(RetBlock(f), 0, |RetBlock(f)|)
  {
  }

  /** Where the jump at position `d` of block `i` leads, as a position in the whole filter. */
  function Landing(prog: seq<SockFilter>, i: int, d: int): int
    requires Convertible(prog) && 0 <= i < |prog| && 0 <= d < |FinalBlock(prog, i).value|
  {
    Addr(prog, i) + d + 1 + FinalBlock(prog, i).value[d].off
  }

  /** The label of the jump at position `d` of a conditional block. */
  function CondLabelAt(f: SockFilter, i: int, d: nat): Label {
    if f.jf == 0 || (d == |CondPrefix(f)| && !(f.jt == 0 && Invertible(Op(f.code))))
    then Label(d, i + f.jt + 1) else Label(d, i + f.jf + 1)
  }

  /** An instruction carries the offset of a label, by the final table. */
  predicate Links(prog: seq<SockFilter>, i: int, l: Label, insn: BpfInsn)
    requires 0 <= i < |prog|
  {
    JumpOff(Some(FinalTable(prog)), |prog|, i, l.d, l.target) == Some(insn.off)
  }

  lemma LabelLands(prog: seq<SockFilter>, i: int, d: int)
    requires Convertible(prog) && 0 <= i < |prog| && 0 <= d < |FinalBlock(prog, i).value|
    requires IsJa(prog[i].code) || IsCondJmp(prog[i].code)
    requires IsJump(FinalBlock(prog, i).value[d])
    ensures exists l :: l in LabelsOf(prog[i], i) && l.d == d && 0 <= l.target < |prog| &&
                        Landing(prog, i, d) == Addr(prog, l.target)
  {
    hide Addr, JumpOff, CondBlock, FinalTable, JaTarget;
    var f := prog[i];
    var l := if IsJa(f.code) then Label(0, JaTarget(f, i)) else CondLabelAt(f, i, d);
    if IsCondJmp(f.code) {
      CondLabel(prog, i, d, FinalBlock(prog, i).value);
    }
    assert l in LabelsOf(f, i);
    LabelResolved(prog, i, d, l.target);
    assert Landing(prog, i, d) == Addr(prog, l.target);
  }

  lemma CondLabel(prog: seq<SockFilter>, i: int, d: int, block: seq<BpfInsn>)
    requires 0 <= i < |prog| && IsCondJmp(prog[i].code) && FinalBlock(prog, i) == Some(block)
    requires 0 <= d < |block| && IsJump(block[d])
    ensures CondLabelAt(prog[i], i, d) in LabelsOf(prog[i], i)
    ensures Links(prog, i, CondLabelAt(prog[i], i, d), block[d])
  {
    hide JumpOff, InvertOp, FinalTable, FinalBlock;
    CondBlockShape(prog, i);
    var f := prog[i];
    var pre, jumps := CondPrefix(f), CondJumps(f, JumpTrue(prog, i).GetOr(0), JumpFalse(prog, i).GetOr(0));
    assert forall p | 0 <= p < |pre| :: !IsJump(pre[p]) && block[p] == pre[p];
    assert block[d] == jumps[d - |pre|];
  }

  /** Label resolution: every jump of the output goes to the first instruction of one of its source
      instruction's targets, or forward within its own block. */
  lemma EveryJumpLands(prog: seq<SockFilter>, i: int, d: int)
    requires Convertible(prog) && 0 <= i < |prog| && 0 <= d < BlockLen(prog[i])
    ensures Addr(prog, i) + d < |Output(prog)| && |FinalBlock(prog, i).value| == BlockLen(prog[i])
    ensures Output(prog)[Addr(prog, i) + d] == FinalBlock(prog, i).value[d]
    ensures IsJump(FinalBlock(prog, i).value[d]) ==>
      (exists l :: l in LabelsOf(prog[i], i) && l.d == d && 0 <= l.target < |prog| &&
                   Landing(prog, i, d) == Addr(prog, l.target)) ||
      Addr(prog, i) + d < Landing(prog, i, d) < Addr(prog, i + 1)
  {
    hide Block, BlockLen, LabelsOf, IsJump, Addr;
    assert CodeAt(Output(prog), 0, Output(prog));
    BlockPlaced(Output(prog), 0, prog, i);
    Fetch(Output(prog), Addr(prog, i), FinalBlock(prog, i).value);
    NextAddr(prog, i);
    if IsJump(FinalBlock(prog, i).value[d]) {
      if IsJa(prog[i].code) || IsCondJmp(prog[i].code) {
        LabelLands(prog, i, d);
      } else {
        LocalJumps(prog, i);
      }
    }
  }
}
