/** The emitted code, byte by byte: what the instruction macros and opcode names of the converter add up to, in the
    numbers of RFC 9669. */
module EmittedBytes {
  import opened Words
  import opened Opcodes
  import opened Ebpf
  import opened Macros
  import opened Cbpf
  import opened Translation
  import opened Converter
  import opened ClassicTable
  import opened TargetTable

  // ----- the listing -----

  /** From the 32-bit offset in R2 to the loaded bytes at R10 - 56, failing with R0 = 0. */
  function LoadCore(size: Byte): seq<BpfInsn> {
    [BpfInsn(0xc6, 2, 0, 16, 0), BpfInsn(0xbc, 3, 2, 0, 0), BpfInsn(0x04, 3, 0, 0, size), BpfInsn(0xad, 3, 2, 13, 0),
     BpfInsn(0x79, 4, 10, -40, 0), BpfInsn(0x79, 5, 10, -48, 0), BpfInsn(0xad, 5, 4, 10, 0), BpfInsn(0x1f, 5, 4, 0, 0),
     BpfInsn(0x2d, 3, 5, 8, 0), BpfInsn(0xbf, 1, 10, 0, 0), BpfInsn(0x07, 1, 0, 0, -56), BpfInsn(0xbf, 3, 4, 0, 0),
     BpfInsn(0x0f, 3, 2, 0, 0), BpfInsn(0xb7, 2, 0, 0, size), BpfInsn(0x85, 0, 0, 0, 113), BpfInsn(0x55, 0, 0, 1, 0),
     BpfInsn(0x05, 0, 0, 2, 0), BpfInsn(0xb7, 0, 0, 0, 0), BpfInsn(0x95, 0, 0, 0, 0)]
  }

  function AbsLoad(k: Word32, size: Byte): seq<BpfInsn> { [BpfInsn(0xb4, 2, 0, 0, AsSigned(k))] + LoadCore(size) }

  function IndLoad(k: Word32, size: Byte): seq<BpfInsn> {
    [BpfInsn(0xbc, 2, 7, 0, 0), BpfInsn(0xbc, 1, 2, 0, 0), BpfInsn(0x04, 2, 0, 0, AsSigned(k)),
     BpfInsn(0xad, 2, 1, 17, 0)] +
    LoadCore(size)
  }

  const WORD_TO_A: seq<BpfInsn> := [BpfInsn(0x61, 0, 10, -56, 0), BpfInsn(0xdc, 0, 0, 0, 32)]
  const HALF_TO_A: seq<BpfInsn> := [BpfInsn(0x69, 0, 10, -56, 0), BpfInsn(0xdc, 0, 0, 0, 16)]
  const BYTE_TO_A: seq<BpfInsn> := [BpfInsn(0x71, 0, 10, -56, 0)]

  /** -(4k + 64) in 16 bits. */
  function Slot(k: Word32): Int16 {
    var low := (-64 - 4 * k) % 0x1_0000;
    if low < 0x8000 then low else low - 0x1_0000
  }

  /** The comparison whose opcode on a constant is `code`: with X, with k, or through R2 with a k whose top bit is
      set. */
  function Compare(f: SockFilter, code: Byte, off: Int16): BpfInsn
    requires code <= 0xf5
  {
    if f.code % 16 == 13 then BpfInsn(code + 8, 0, 7, off, AsSigned(f.k))
    else if f.k >= 0x8000_0000 then BpfInsn(code + 8, 0, 2, off, 0)
    else BpfInsn(code, 0, 0, off, AsSigned(f.k))
  }

  /** A conditional block, given the opcode of the comparison and of its opposite, if that is used. */
  function Branches(f: SockFilter, len: int, i: int, tab: Option<seq<int>>, code: Byte, opposite: Option<Byte>)
    : Option<seq<BpfInsn>>
    requires 0 <= i < len && (tab.Some? ==> |tab.value| == len)
    requires code <= 0xf5 && (opposite.Some? ==> opposite.value <= 0xf5)
  {
    var pre := if f.code % 16 != 13 && f.k >= 0x8000_0000 then [BpfInsn(0xb4, 2, 0, 0, AsSigned(f.k))] else [];
    var onTrue, onFalse := i + 1 + f.jt, i + 1 + f.jf;
    if f.jf == 0 then
      match JumpOff(tab, len, i, |pre|, onTrue) {
        case Some(off) => Some(pre + [Compare(f, code, off)])
        case None => None
      }
    else if f.jt == 0 && opposite.Some? then
      match JumpOff(tab, len, i, |pre|, onFalse) {
        case Some(off) => Some(pre + [Compare(f, opposite.value, off)])
        case None => None
      }
    else
      match (JumpOff(tab, len, i, |pre|, onTrue), JumpOff(tab, len, i, |pre| + 1, onFalse)) {
        case (Some(on), Some(off)) => Some(pre + [Compare(f, code, on), BpfInsn(0x05, 0, 0, off, 0)])
        case _ => None
      }
  }

  /** The block of each opcode. */
  function Bytes(f: SockFilter, len: int, i: int, tab: Option<seq<int>>): Option<seq<BpfInsn>>
    requires 0 <= i < len && (tab.Some? ==> |tab.value| == len)
  {
    match f.code {
      case 0x00 => Some([BpfInsn(0xb4, 0, 0, 0, AsSigned(f.k))])
      case 0x01 => Some([BpfInsn(0xb4, 7, 0, 0, AsSigned(f.k))])
      case 0x02 => Some([BpfInsn(0x63, 10, 0, Slot(f.k), 0)])
      case 0x03 => Some([BpfInsn(0x63, 10, 7, Slot(f.k), 0)])
      case 0x04 | 0x14 | 0x24 | 0x34 | 0x44 | 0x54 | 0x64 | 0x74 | 0x84 | 0x94 | 0xa4 =>
        Some([BpfInsn(f.code, 0, 0, 0, AsSigned(f.k))])
      case 0x0c | 0x1c | 0x2c | 0x4c | 0x5c | 0x6c | 0x7c | 0xac => Some([BpfInsn(f.code, 0, 7, 0, AsSigned(f.k))])
      case 0x3c | 0x9c =>
        Some([BpfInsn(0xbc, 7, 7, 0, 0), BpfInsn(0x55, 7, 0, 2, 0), BpfInsn(0xb7, 0, 0, 0, 0), BpfInsn(0x95, 0, 0, 0, 0),
              BpfInsn(f.code, 0, 7, 0, AsSigned(f.k))])
      case 0x05 =>
        (match JumpOff(tab, len, i, 0, i + 1 + AsSigned(f.k)) {
          case Some(off) => Some([BpfInsn(0x05, 0, 0, off, 0)])
          case None => None
        })
      case 0x15 | 0x1d => Branches(f, len, i, tab, 0x15, Some(0x55))
      case 0x25 | 0x2d => Branches(f, len, i, tab, 0x25, Some(0xb5))
      case 0x35 | 0x3d => Branches(f, len, i, tab, 0x35, Some(0xa5))
      case 0x45 | 0x4d => Branches(f, len, i, tab, 0x45, None)
      case 0x06 => Some([BpfInsn(0xb4, 0, 0, 0, if f.k == 0 then 0 else 1), BpfInsn(0x95, 0, 0, 0, 0)])
      case 0x16 =>
        Some([BpfInsn(0x15, 0, 0, 2, 0), BpfInsn(0xb4, 0, 0, 0, 1), BpfInsn(0x05, 0, 0, 1, 0), BpfInsn(0xb4, 0, 0, 0, 0),
              BpfInsn(0x95, 0, 0, 0, 0)])
      case 0x07 => Some([BpfInsn(0xbf, 7, 0, 0, 0)])
      case 0x87 => Some([BpfInsn(0xbf, 0, 7, 0, 0)])
      case 0x20 => Some(AbsLoad(f.k, 4) + WORD_TO_A)
      case 0x28 => Some(AbsLoad(f.k, 2) + HALF_TO_A)
      case 0x30 => Some(AbsLoad(f.k, 1) + BYTE_TO_A)
      case 0x40 => Some(IndLoad(f.k, 4) + WORD_TO_A)
      case 0x48 => Some(IndLoad(f.k, 2) + HALF_TO_A)
      case 0x50 => Some(IndLoad(f.k, 1) + BYTE_TO_A)
      case 0x60 => Some([BpfInsn(0x61, 0, 10, Slot(f.k), 0)])
      case 0x61 => Some([BpfInsn(0x61, 7, 10, Slot(f.k), 0)])
      case 0xb1 =>
        Some([BpfInsn(0xbf, 7, 0, 0, 0)] + (AbsLoad(f.k, 1) + BYTE_TO_A) +
             [BpfInsn(0x54, 0, 0, 0, 15), BpfInsn(0x64, 0, 0, 0, 2), BpfInsn(0xbf, 2, 7, 0, 0), BpfInsn(0xbf, 7, 0, 0, 0),
              BpfInsn(0xbf, 0, 2, 0, 0)])
      case _ => None
    }
  }

  // ----- the blocks are the listed ones -----

  lemma SignedSame(k: Word32)
    ensures ToS32(k) == AsSigned(k)
  {
  }

  lemma SlotSame(k: Word32)
    ensures ScratchOff(k) == Slot(k)
    ensures k < 16 ==> Slot(k) == -64 - 4 * k
  {
    var n := 4 * k + 64;
    var q := (n - ToS32(n)) / 0x1_0000_0000;
    assert n - ToS32(n) == q * 0x1_0000_0000;
    WholeTurns(0 - n, 0x1_0000 * q);
  }

  lemma WholeTurns(n: int, q: int)
    ensures (n + q * 0x1_0000) % 0x1_0000 == n % 0x1_0000
  {
  }

  lemma CoreBytes(size: Byte)
    ensures CheckEnd(size) + CheckBounds() + Probe(size) + EpilogueFail() == LoadCore(size)
  {
  }

  lemma LoadBytes(code: Word16, k: Word32)
    requires LoadNumber(code)
    ensures PacketLoad(code, ToS32(k)) ==
      (if code in {0x20, 0x28, 0x30} then AbsLoad(k, if code == 0x20 then 4 else if code == 0x28 then 2 else 1)
       else IndLoad(k, if code == 0x40 then 4 else if code == 0x48 then 2 else 1)) +
      (if code in {0x20, 0x40} then WORD_TO_A else if code in {0x28, 0x48} then HALF_TO_A else BYTE_TO_A)
  {
    hide CheckEnd, CheckBounds, Probe, EpilogueFail, LoadCore, ToS32, AsSigned;
    SignedSame(k);
    CoreBytes(SizeBytes(code));
    var a, b, c, d := CheckEnd(SizeBytes(code)), CheckBounds(), Probe(SizeBytes(code)), EpilogueFail();
    var pre := LoadOffset(Mode(code) == BPF_IND, ToS32(k));
    assert pre + a + b + c + d == pre + (a + b + c + d);
  }

  lemma AluBytes(f: SockFilter)
    requires AluNumber(f.code)
    ensures Some(AluBlock(f)) == Bytes(f, 1, 0, None)
  {
    hide ToS32, AsSigned, IsAlu, IsDivision, Src, LoadCore;
    SignedSame(f.k);
    AluNumbers(f.code);
    AluFields(f.code);
    assert [] + [AluInsn(f)] == [AluInsn(f)];
    var guard := [Mov32Reg(REG_X, REG_X), JmpImm(BPF_JNE, REG_X, 0, 2)];
    assert guard + EpilogueFail() + [AluInsn(f)] ==
      [guard[0], guard[1], EpilogueFail()[0], EpilogueFail()[1], AluInsn(f)];
  }

  lemma CondFields(code: Word16)
    requires CondNumber(code)
    ensures Src(code) == (if code % 16 == 13 then BPF_X else BPF_K)
    ensures Op(code) == (if code in {0x15, 0x1d} then BPF_JEQ else if code in {0x25, 0x2d} then BPF_JGT
                         else if code in {0x35, 0x3d} then BPF_JGE else BPF_JSET)
  {
  }

  lemma CondBytes(f: SockFilter, len: int, i: int, tab: Option<seq<int>>)
    requires 0 <= i < len && (tab.Some? ==> |tab.value| == len) && CondNumber(f.code) && IsCondJmp(f.code)
    ensures CondBlock(f, len, i, tab) == Bytes(f, len, i, tab)
  {
    hide IsCondJmp, Src, Op, JumpOff, ToS32, LoadCore;
    SignedSame(f.k);
    CondFields(f.code);
  }

  /** Every block, whatever the opcode and the address table, is the listed one. */
  lemma BlockBytes(f: SockFilter, len: int, i: int, tab: Option<seq<int>>)
    requires 0 <= i < len <= 4096 && (tab.Some? ==> |tab.value| == len)
    ensures Block(f, len, i, tab) == Bytes(f, len, i, tab)
  {
    hide IsAlu, IsCondJmp, Src, Op, JumpOff, ToS32, LoadCore, AluBlock, CondBlock, PacketLoad, ScratchOff, Slot, Branches,
      JaTarget, AsSigned;
    AluNumbers(f.code);
    CondNumbers(f.code);
    OtherNumbers(f.code);
    SignedSame(f.k);
    SlotSame(f.k);
    if AluNumber(f.code) {
      AluBytes(f);
    } else if CondNumber(f.code) {
      CondBytes(f, len, i, tab);
    } else if LoadNumber(f.code) {
      LoadBytes(f.code, f.k);
    } else if f.code == 0xb1 {
      LoadBytes(0x30, f.k);
    } else if f.code == 0x05 {
      JaOffset(f, len, i, tab);
    }
  }

  lemma JaOffset(f: SockFilter, len: int, i: int, tab: Option<seq<int>>)
    requires 0 <= i < len <= 4096 && (tab.Some? ==> |tab.value| == len)
    ensures JumpOff(tab, len, i, 0, JaTarget(f, i)) == JumpOff(tab, len, i, 0, i + 1 + AsSigned(f.k))
  {
    hide JaTarget, AsSigned;
    JaTargetByNumber(f, i, len);
  }

  /** The prologue, and the two constant filters. */
  lemma FixedBytes(accept: bool)
    ensures Prologue() ==
      [BpfInsn(0x7b, 10, 4, -40, 0), BpfInsn(0x7b, 10, 5, -48, 0), BpfInsn(0xbf, 6, 1, 0, 0), BpfInsn(0xb7, 0, 0, 0, 0),
       BpfInsn(0xb7, 7, 0, 0, 0)]
    ensures ConstantFilter(accept) == [BpfInsn(0xb7, 0, 0, 0, if accept then 1 else 0), BpfInsn(0x95, 0, 0, 0, 0)]
  {
  }

  // ----- everything emitted is an instruction of the target table -----

  /** A listed opcode on existing registers; if it is a call, it calls helper 113. */
  predicate Listed(insn: BpfInsn) {
    ListedNumber(insn.code) && insn.dst < 11 && insn.src < 11 && (insn.code == 0x85 ==> insn.src == 0 && insn.imm == 113)
  }

  predicate AllListed(code: seq<BpfInsn>) {
    forall p | 0 <= p < |code| :: Listed(code[p])
  }

  lemma ListedConcat(a: seq<BpfInsn>, b: seq<BpfInsn>)
    requires AllListed(a) && AllListed(b)
    ensures AllListed(a + b)
  {
    hide Listed;
  }

  lemma LoadIsListed(k: Word32, size: Byte)
    ensures AllListed(AbsLoad(k, size)) && AllListed(IndLoad(k, size))
    ensures AllListed(WORD_TO_A) && AllListed(HALF_TO_A) && AllListed(BYTE_TO_A)
  {
    hide AsSigned, LoadCore;
    CoreIsListed(size);
    ListedConcat([BpfInsn(0xb4, 2, 0, 0, AsSigned(k))], LoadCore(size));
    ListedConcat([BpfInsn(0xbc, 2, 7, 0, 0), BpfInsn(0xbc, 1, 2, 0, 0), BpfInsn(0x04, 2, 0, 0, AsSigned(k)),
                  BpfInsn(0xad, 2, 1, 17, 0)], LoadCore(size));
  }

  lemma CoreIsListed(size: Byte)
    ensures AllListed(LoadCore(size))
  {
  }

  lemma CompareIsListed(f: SockFilter, code: Byte, off: Int16)
    requires code in {0x15, 0x25, 0x35, 0x45, 0x55, 0xa5, 0xb5}
    ensures Listed(Compare(f, code, off))
  {
    hide AsSigned;
  }

  lemma BranchesAreListed(f: SockFilter, len: int, i: int, tab: Option<seq<int>>, code: Byte, opposite: Option<Byte>)
    requires 0 <= i < len && (tab.Some? ==> |tab.value| == len)
    requires code in {0x15, 0x25, 0x35, 0x45} && (opposite.Some? ==> opposite.value in {0x55, 0xa5, 0xb5})
    requires Branches(f, len, i, tab, code, opposite).Some?
    ensures AllListed(Branches(f, len, i, tab, code, opposite).value)
  {
    hide JumpOff, AsSigned, Compare, Listed;
    forall off: Int16 ensures Listed(Compare(f, code, off)) {
      CompareIsListed(f, code, off);
    }
    forall off: Int16 | opposite.Some? ensures Listed(Compare(f, opposite.value, off)) {
      CompareIsListed(f, opposite.value, off);
    }
    JaIsListed(AsSigned(f.k));
  }

  lemma JaIsListed(imm: Int32)
    ensures Listed(BpfInsn(0xb4, 2, 0, 0, imm))
    ensures forall off: Int16 :: Listed(BpfInsn(0x05, 0, 0, off, 0))
  {
  }

  lemma BlockIsListed(f: SockFilter, len: int, i: int, tab: Option<seq<int>>)
    requires 0 <= i < len && (tab.Some? ==> |tab.value| == len) && Bytes(f, len, i, tab).Some?
    ensures AllListed(Bytes(f, len, i, tab).value)
  {
    hide JumpOff, AsSigned, AbsLoad, IndLoad, Slot, Branches;
    if f.code in {0x15, 0x1d} {
      BranchesAreListed(f, len, i, tab, 0x15, Some(0x55));
    } else if f.code in {0x25, 0x2d} {
      BranchesAreListed(f, len, i, tab, 0x25, Some(0xb5));
    } else if f.code in {0x35, 0x3d} {
      BranchesAreListed(f, len, i, tab, 0x35, Some(0xa5));
    } else if f.code in {0x45, 0x4d} {
      BranchesAreListed(f, len, i, tab, 0x45, None);
    } else if LoadNumber(f.code) || f.code == 0xb1 {
      var size := if f.code in {0x20, 0x40} then 4 else if f.code in {0x28, 0x48} then 2 else 1;
      var tail := if size == 4 then WORD_TO_A else if size == 2 then HALF_TO_A else BYTE_TO_A;
      LoadIsListed(f.k, size);
      ListedConcat(AbsLoad(f.k, size), tail);
      ListedConcat(IndLoad(f.k, size), tail);
    }
  }

  lemma {:induction false} EmittedIsListed(prog: seq<SockFilter>, n: nat)
    requires Convertible(prog) && n <= |prog|
    ensures AllListed(Emitted(prog, n))
    decreases n
  {
    hide Block, BlockLen, AllListed, Bytes, Prologue;
    if n == 0 {
      PrologueIsListed();
    } else {
      EmittedIsListed(prog, n - 1);
      assert FinalBlock(prog, n - 1).Some?;
      BlockBytes(prog[n - 1], |prog|, n - 1, Some(FinalTable(prog)));
      BlockIsListed(prog[n - 1], |prog|, n - 1, Some(FinalTable(prog)));
      ListedConcat(Emitted(prog, n - 1), FinalInsns(prog, n - 1));
    }
  }

  lemma PrologueIsListed()
    ensures AllListed(Prologue())
  {
    FixedBytes(true);
  }

  lemma ConstantIsListed(accept: bool)
    ensures AllListed(ConstantFilter(accept)) && |ConstantFilter(accept)| == 2
  {
    FixedBytes(accept);
  }

  /** A converted filter consists of instructions of the target table. */
  lemma OutputIsListed(prog: seq<SockFilter>)
    requires Convertible(prog)
    ensures AllListed(Output(prog))
  {
    hide AllListed;
    EmittedIsListed(prog, |prog|);
  }
}
