/** What the converter emits: the eBPF block of each classic instruction, and the layout of a whole filter. */
module Translation {
  import opened Words
  import opened Opcodes
  import opened Ebpf
  import opened Cbpf
  import opened Macros

  const DATA_SLOT := -40
  const DATA_END_SLOT := -48
  const BUFFER_SLOT := -56

  // ----- packet load: the parts follow the numbered comments of emit_packet_load -----

  /** Offset into R2; an IND offset that wraps jumps to the failure epilogue. */
  function LoadOffset(ind: bool, imm: Int32): seq<BpfInsn> {
    if ind then
      [Mov32Reg(2, REG_X), Mov32Reg(1, 2), Alu32Imm(BPF_ADD, 2, imm), JmpReg(BPF_JLT, 2, 1, 17)]
    else
      [Mov32Imm(2, imm)]
  }

  /** Reject offsets from 2^31 up; end offset into R3. */
  function CheckEnd(size: Byte): seq<BpfInsn> {
    [Jmp32Imm(BPF_JSLT, 2, 0, 16), Mov32Reg(3, 2), Alu32Imm(BPF_ADD, 3, size), JmpReg(BPF_JLT, 3, 2, 13)]
  }

  /** Reject an end offset beyond data_end - data. */
  function CheckBounds(): seq<BpfInsn> {
    [LdxMem(BPF_DW, 4, REG_FP, DATA_SLOT), LdxMem(BPF_DW, 5, REG_FP, DATA_END_SLOT),
     JmpReg(BPF_JLT, 5, 4, 10), Alu64Reg(BPF_SUB, 5, 4), JmpReg(BPF_JGT, 3, 5, 8)]
  }

  /** Copy the bytes to the frame; a probe read that fails reaches the failure epilogue. */
  function Probe(size: Byte): seq<BpfInsn> {
    [Mov64Reg(1, REG_FP), Alu64Imm(BPF_ADD, 1, BUFFER_SLOT), Mov64Reg(3, 4), Alu64Reg(BPF_ADD, 3, 2),
     Mov64Imm(2, size), EmitCall(BPF_FUNC_probe_read_kernel), JmpImm(BPF_JNE, 0, 0, 1), Ja(2)]
  }

  function EpilogueFail(): seq<BpfInsn> { [Mov64Imm(0, 0), ExitInsn()] }

  /** Load the copied bytes into A and convert their byte order. */
  function LoadValue(code: Word16): seq<BpfInsn> {
    [LdxMem(Size(code), REG_A, REG_FP, BUFFER_SLOT)] +
    if Size(code) == BPF_H then [FromBigEndian(REG_A, 16)]
    else if Size(code) == BPF_W then [FromBigEndian(REG_A, 32)]
    else []
  }

  function PacketLoad(code: Word16, imm: Int32): seq<BpfInsn> {
    LoadOffset(Mode(code) == BPF_IND, imm) + CheckEnd(SizeBytes(code)) + CheckBounds() +
    Probe(SizeBytes(code)) + EpilogueFail() + LoadValue(code)
  }

  // ----- jumps -----

  /** Offset of the jump at position `d` of block `i`, by the address table (absent in a length query);
      None where the converter gives up. */
  function JumpOff(tab: Option<seq<int>>, len: int, i: int, d: nat, target: int): Option<Int16>
    requires 0 <= i < len && (tab.Some? ==> |tab.value| == len)
  {
    if target >= len || target < 0 then None else
    var off := (if tab.Some? then tab.value[target] - tab.value[i] - 1 else 0) - d;
    if -0x8000 <= off < 0x8000 then Some(off) else None
  }

  /** A constant whose sign bit is set is compared through a register. */
  predicate ViaTmp(f: SockFilter) { Src(f.code) == BPF_K && ToS32(f.k) < 0 }

  function CondPrefix(f: SockFilter): seq<BpfInsn> {
    if ViaTmp(f) then [Mov32Imm(REG_TMP, ToS32(f.k))] else []
  }

  function CondInsn(f: SockFilter, op: Byte, off: Int16): BpfInsn
    requires op <= 0xf0
  {
    if ViaTmp(f) then BpfInsn(BPF_JMP + op + BPF_X, REG_A, REG_TMP, off, 0)
    else BpfInsn(BPF_JMP + op + Src(f.code), REG_A, if Src(f.code) == BPF_X then REG_X else 0, off, ToS32(f.k))
  }

  /** One jump with the inverted condition replaces a jump over a jump, except for JSET. */
  predicate Invertible(op: nat) { op == BPF_JEQ || op == BPF_JGT || op == BPF_JGE }

  function InvertOp(op: nat): Byte
    requires Invertible(op)
  {
    if op == BPF_JEQ then BPF_JNE else if op == BPF_JGT then BPF_JLE else BPF_JLT
  }

  function CondBlock(f: SockFilter, len: int, i: int, tab: Option<seq<int>>): Option<seq<BpfInsn>>
    requires 0 <= i < len && (tab.Some? ==> |tab.value| == len)
    requires IsCondJmp(f.code)
  {
    var pre := CondPrefix(f);
    var toTrue := JumpOff(tab, len, i, |pre|, i + f.jt + 1);
    if f.jf == 0 then
      if toTrue.None? then None else Some(pre + [CondInsn(f, Op(f.code), toTrue.value)])
    else if f.jt == 0 && Invertible(Op(f.code)) then
      var toFalse := JumpOff(tab, len, i, |pre|, i + f.jf + 1);
      if toFalse.None? then None else Some(pre + [CondInsn(f, InvertOp(Op(f.code)), toFalse.value)])
    else
      var toFalse := JumpOff(tab, len, i, |pre| + 1, i + f.jf + 1);
      if toTrue.None? || toFalse.None? then None
      else Some(pre + [CondInsn(f, Op(f.code), toTrue.value), Ja(toFalse.value)])
  }

  /** `target = i + fp->k + 1` in 32-bit unsigned arithmetic, stored in an int. */
  function JaTarget(f: SockFilter, i: int): int { ToS32(i + f.k + 1) }

  // ----- blocks -----

  /** `stack_off = fp->k * 4 + 64` in 32-bit arithmetic, negated and stored in 16 bits. */
  function ScratchOff(k: Word32): Int16 {
    var low := (0 - ToS32(4 * k + 64)) % 0x1_0000;
    if low < 0x8000 then low else low - 0x1_0000
  }

  function AluInsn(f: SockFilter): BpfInsn
    requires IsAlu(f.code)
  {
    BpfInsn(f.code, REG_A, if Src(f.code) == BPF_X then REG_X else 0, 0, ToS32(f.k))
  }

  function AluBlock(f: SockFilter): seq<BpfInsn>
    requires IsAlu(f.code)
  {
    (if IsDivision(f.code) && Src(f.code) == BPF_X then
       [Mov32Reg(REG_X, REG_X), JmpImm(BPF_JNE, REG_X, 0, 2)] + EpilogueFail()
     else []) + [AluInsn(f)]
  }

  function MshTail(): seq<BpfInsn> {
    [Alu32Imm(BPF_AND, REG_A, 0xf), Alu32Imm(BPF_LSH, REG_A, 2), Mov64Reg(REG_TMP, REG_X),
     Mov64Reg(REG_X, REG_A), Mov64Reg(REG_A, REG_TMP)]
  }

  function MshBlock(k: Word32): seq<BpfInsn> {
    [Mov64Reg(REG_X, REG_A)] + PacketLoad(BPF_LD + BPF_ABS + BPF_B, ToS32(k)) + MshTail()
  }

  function RetBlock(f: SockFilter): seq<BpfInsn> {
    if f.code == BPF_RET + BPF_K then [Mov32Imm(0, if f.k != 0 then 1 else 0), ExitInsn()]
    else [JmpImm(BPF_JEQ, REG_A, 0, 2), Mov32Imm(0, 1), Ja(1), Mov32Imm(0, 0), ExitInsn()]
  }

  predicate IsMove(code: Word16) { IsStore(code) || IsLoadMem(code) || IsLoadImm(code) || IsTax(code) || IsTxa(code) }

  /** Scratch and immediate loads, scratch stores and moves between A and X take one instruction. */
  function MoveInsn(f: SockFilter): BpfInsn
    requires IsMove(f.code)
  {
    if IsStore(f.code) then StxMem(BPF_W, REG_FP, if f.code == BPF_ST then REG_A else REG_X, ScratchOff(f.k))
    else if IsLoadMem(f.code) then
      LdxMem(BPF_W, if Class(f.code) == BPF_LD then REG_A else REG_X, REG_FP, ScratchOff(f.k))
    else if IsLoadImm(f.code) then Mov32Imm(if Class(f.code) == BPF_LD then REG_A else REG_X, ToS32(f.k))
    else if IsTax(f.code) then Mov64Reg(REG_X, REG_A)
    else Mov64Reg(REG_A, REG_X)
  }

  predicate Supported(code: Word16) {
    IsAlu(code) || IsPacketLoad(code) || IsJa(code) || IsCondJmp(code) || IsMsh(code) || IsRet(code) || IsMove(code)
  }

  /** The block of instruction `f` at index `i`, or None where the converter returns -EINVAL. */
  function Block(f: SockFilter, len: int, i: int, tab: Option<seq<int>>): Option<seq<BpfInsn>>
    requires 0 <= i < len && (tab.Some? ==> |tab.value| == len)
  {
    if IsAlu(f.code) then Some(AluBlock(f))
    else if IsPacketLoad(f.code) then Some(PacketLoad(f.code, ToS32(f.k)))
    else if IsJa(f.code) then
      var off := JumpOff(tab, len, i, 0, JaTarget(f, i));
      if off.None? then None else Some([Ja(off.value)])
    else if IsCondJmp(f.code) then CondBlock(f, len, i, tab)
    else if IsMsh(f.code) then Some(MshBlock(f.k))
    else if IsRet(f.code) then Some(RetBlock(f))
    else if IsMove(f.code) then Some([MoveInsn(f)])
    else None
  }

  /** Size of a block; it depends on the instruction alone, not on addresses. */
  function BlockLen(f: SockFilter): (n: nat)
    ensures n <= 27
  {
    if IsAlu(f.code) then if IsDivision(f.code) && Src(f.code) == BPF_X then 5 else 1
    else if IsPacketLoad(f.code) then
      (if Mode(f.code) == BPF_IND then 4 else 1) + 20 + if Size(f.code) == BPF_B then 0 else 1
    else if IsCondJmp(f.code) then
      (if ViaTmp(f) then 1 else 0) + if f.jf == 0 || (f.jt == 0 && Invertible(Op(f.code))) then 1 else 2
    else if IsMsh(f.code) then 27
    else if IsRet(f.code) then if f.code == BPF_RET + BPF_K then 2 else 5
    else if Supported(f.code) then 1
    else 0
  }

  lemma BlockHasItsLength(f: SockFilter, len: int, i: int, tab: Option<seq<int>>)
    requires 0 <= i < len && (tab.Some? ==> |tab.value| == len)
    ensures Block(f, len, i, tab).Some? ==> |Block(f, len, i, tab).value| == BlockLen(f) && Supported(f.code)
    ensures Supported(f.code) <==> BlockLen(f) > 0
  {
    hide PacketLoad, MshBlock, CondBlock, AluBlock, RetBlock, MoveInsn, JumpOff, JaTarget, IsMove;
    if IsPacketLoad(f.code) {
      PacketLoadSize(f.code, ToS32(f.k));
    } else if IsMsh(f.code) {
      MshSize(f.k);
    } else if IsCondJmp(f.code) {
      CondSize(f, len, i, tab);
    } else {
      AluAndRetSize(f);
    }
  }

  lemma PacketLoadSize(code: Word16, imm: Int32)
    requires IsPacketLoad(code)
    ensures |PacketLoad(code, imm)| ==
      (if Mode(code) == BPF_IND then 4 else 1) + 20 + if Size(code) == BPF_B then 0 else 1
  {
  }

  lemma MshSize(k: Word32)
    ensures |MshBlock(k)| == 27
  {
    hide PacketLoad;
    PacketLoadSize(BPF_LD + BPF_ABS + BPF_B, ToS32(k));
  }

  lemma CondSize(f: SockFilter, len: int, i: int, tab: Option<seq<int>>)
    requires 0 <= i < len && (tab.Some? ==> |tab.value| == len) && IsCondJmp(f.code)
    ensures var n := if f.jf == 0 || (f.jt == 0 && Invertible(Op(f.code))) then 1 else 2;
      CondBlock(f, len, i, tab).Some? ==>
        |CondBlock(f, len, i, tab).value| == n + if ViaTmp(f) then 1 else 0
  {
    hide JumpOff, CondInsn, InvertOp, ViaTmp;
  }

  lemma AluAndRetSize(f: SockFilter)
    ensures IsAlu(f.code) ==> |AluBlock(f)| == if IsDivision(f.code) && Src(f.code) == BPF_X then 5 else 1
    ensures IsRet(f.code) ==> |RetBlock(f)| == if f.code == BPF_RET + BPF_K then 2 else 5
  {
  }

  // ----- layout -----

  function Prologue(): seq<BpfInsn> {
    [StxMem(BPF_DW, REG_FP, 4, DATA_SLOT), StxMem(BPF_DW, REG_FP, 5, DATA_END_SLOT),
     Mov64Reg(REG_CTX, 1), Mov64Imm(REG_A, 0), Mov64Imm(REG_X, 0)]
  }

  /** Where the block of instruction `i` starts; `Addr(prog, |prog|)` is the length of the filter. */
  function Addr(prog: seq<SockFilter>, i: int): (n: nat)
    requires 0 <= i <= |prog|
    ensures 5 <= n <= 5 + 27 * i
    decreases i
  {
    if i == 0 then 5 else Addr(prog, i - 1) + BlockLen(prog[i - 1])
  }

  function OutLen(prog: seq<SockFilter>): nat { Addr(prog, |prog|) }

  /** The address table on the second pass: complete. */
  function FinalTable(prog: seq<SockFilter>): (tab: seq<int>)
    ensures |tab| == |prog|
  {
    seq(|prog|, j requires 0 <= j < |prog| => Addr(prog, j))
  }

  /** The address table while block `i` is emitted on the first pass: the entries after `i` are still zero. */
  function FirstTable(prog: seq<SockFilter>, i: int): (tab: seq<int>)
    requires 0 <= i < |prog|
    ensures |tab| == |prog|
  {
    seq(|prog|, j requires 0 <= j < |prog| => if j <= i then Addr(prog, j) else 0)
  }

  function QueryBlock(prog: seq<SockFilter>, i: int): Option<seq<BpfInsn>>
    requires 0 <= i < |prog|
  { Block(prog[i], |prog|, i, None) }

  function FirstBlock(prog: seq<SockFilter>, i: int): Option<seq<BpfInsn>>
    requires 0 <= i < |prog|
  { Block(prog[i], |prog|, i, Some(FirstTable(prog, i))) }

  function FinalBlock(prog: seq<SockFilter>, i: int): Option<seq<BpfInsn>>
    requires 0 <= i < |prog|
  { Block(prog[i], |prog|, i, Some(FinalTable(prog))) }

  /** The converter's length query succeeds. */
  predicate QueryOk(prog: seq<SockFilter>) {
    0 < |prog| <= BPF_MAXINSNS && forall i | 0 <= i < |prog| :: QueryBlock(prog, i).Some?
  }

  /** Both emitting passes succeed. */
  predicate Convertible(prog: seq<SockFilter>) {
    0 < |prog| <= BPF_MAXINSNS &&
    (forall i | 0 <= i < |prog| :: FirstBlock(prog, i).Some?) &&
    (forall i | 0 <= i < |prog| :: FinalBlock(prog, i).Some?)
  }

  function FinalInsns(prog: seq<SockFilter>, i: int): (insns: seq<BpfInsn>)
    requires 0 <= i < |prog| && FinalBlock(prog, i).Some?
    ensures insns == FinalBlock(prog, i).value && |insns| == BlockLen(prog[i])
  {
    BlockHasItsLength(prog[i], |prog|, i, Some(FinalTable(prog)));
    FinalBlock(prog, i).value
  }

  /** The emitted instructions up to the block of instruction `n`. */
  function Emitted(prog: seq<SockFilter>, n: int): (out: seq<BpfInsn>)
    requires 0 <= n <= |prog|
    requires forall i | 0 <= i < n :: FinalBlock(prog, i).Some?
    ensures |out| == Addr(prog, n)
    decreases n
  {
    if n == 0 then Prologue() else Emitted(prog, n - 1) + FinalInsns(prog, n - 1)
  }

  function Output(prog: seq<SockFilter>): (out: seq<BpfInsn>)
    requires Convertible(prog)
    ensures |out| == OutLen(prog)
  {
    Emitted(prog, |prog|)
  }
}
