/** The classic instruction set by opcode number (linux/bpf_common.h), and the part of it that the converter
    accepts. What the opcode fields of `Opcodes` add up to is stated here in plain numbers. */
module ClassicTable {
  import opened Words
  import opened Opcodes
  import opened Cbpf
  import opened Translation
  import opened Blocks
  import opened Labels

  /** On to the next instruction with a new A, or a new X, kept to 32 bits. */
  function SetA(s: CState, v: int): Outcome { Going(CState(s.pc + 1, v % 0x1_0000_0000, s.x, s.mem)) }
  function SetX(s: CState, v: int): Outcome { Going(CState(s.pc + 1, s.a, v % 0x1_0000_0000, s.mem)) }

  function Branch(s: CState, f: SockFilter, holds: bool): Outcome {
    Going(CState(s.pc + 1 + if holds then f.jt else f.jf, s.a, s.x, s.mem))
  }

  function Store(s: CState, k: Word32, v: Word32): Outcome {
    if k < 16 then Going(CState(s.pc + 1, s.a, s.x, s.mem[k := v])) else Illegal
  }

  function AsSigned(k: Word32): Int32 { if k < 0x8000_0000 then k else k - 0x1_0000_0000 }

  /** One, two or four packet bytes, most significant first, if all of them can be read and `off` is below 2^31. */
  function BytesAt(pkt: Packet, off: nat, size: nat): Option<nat>
    requires size == 1 || size == 2 || size == 4
  {
    if off >= 0x8000_0000 || off + size > |pkt| || exists j | off <= j < off + size :: pkt[j].Faulting? then None
    else if size == 1 then Some(pkt[off].value)
    else if size == 2 then Some(0x100 * pkt[off].value + pkt[off + 1].value)
    else
      Some(0x100_0000 * pkt[off].value + 0x1_0000 * pkt[off + 1].value + 0x100 * pkt[off + 2].value +
           pkt[off + 3].value)
  }

  function Load(s: CState, bytes: Option<nat>): Outcome {
    if bytes.None? then Returned(0) else SetA(s, bytes.value)
  }

  /** The second operand of an arithmetic or conditional instruction: X where its source bit is set, else k. */
  function Operand(s: CState, f: SockFilter): Word32 {
    if f.code in {0x0c, 0x1c, 0x1d, 0x2c, 0x2d, 0x3c, 0x3d, 0x4c, 0x4d, 0x5c, 0x6c, 0x7c, 0x9c, 0xac} then s.x else f.k
  }

  function Computed(code: Word16, a: Word32, b: Word32): int
    requires b == 0 ==> code !in {0x34, 0x3c, 0x94, 0x9c}
  {
    match code {
      case 0x04 | 0x0c => a + b
      case 0x14 | 0x1c => a - b
      case 0x24 | 0x2c => a * b
      case 0x34 | 0x3c => a / b
      case 0x44 | 0x4c => BitOr(a, b)
      case 0x54 | 0x5c => BitAnd(a, b)
      case 0x64 | 0x6c => a * Pow2(b % 32)
      case 0x74 | 0x7c => a / Pow2(b % 32)
      case 0x94 | 0x9c => a % b
      case 0xa4 | 0xac => BitXor(a, b)
      case _ => 0 - a
    }
  }

  predicate Compared(code: Word16, a: Word32, b: Word32) {
    match code {
      case 0x15 | 0x1d => a == b
      case 0x25 | 0x2d => a > b
      case 0x35 | 0x3d => a >= b
      case _ => BitAnd(a, b) != 0
    }
  }

  /** What each opcode does. */
  function ByNumber(pkt: Packet, s: CState, f: SockFilter): Outcome {
    match f.code {
      case 0x00 => SetA(s, f.k)
      case 0x01 => SetX(s, f.k)
      case 0x02 => Store(s, f.k, s.a)
      case 0x03 => Store(s, f.k, s.x)
      case 0x05 => Going(CState(s.pc + 1 + AsSigned(f.k), s.a, s.x, s.mem))
      case 0x06 => Returned(f.k)
      case 0x07 => SetX(s, s.a)
      case 0x16 => Returned(s.a)
      case 0x20 => Load(s, BytesAt(pkt, f.k, 4))
      case 0x28 => Load(s, BytesAt(pkt, f.k, 2))
      case 0x30 => Load(s, BytesAt(pkt, f.k, 1))
      case 0x40 => Load(s, BytesAt(pkt, s.x + f.k, 4))
      case 0x48 => Load(s, BytesAt(pkt, s.x + f.k, 2))
      case 0x50 => Load(s, BytesAt(pkt, s.x + f.k, 1))
      case 0x60 => if f.k < 16 then SetA(s, s.mem[f.k]) else Illegal
      case 0x61 => if f.k < 16 then SetX(s, s.mem[f.k]) else Illegal
      case 0x87 => SetA(s, s.x)
      case 0xb1 =>
        var byte := BytesAt(pkt, f.k, 1);
        if byte.None? then Returned(0) else SetX(s, 4 * (byte.value % 16))
      case 0x34 | 0x94 => if f.k == 0 then Illegal else SetA(s, Computed(f.code, s.a, f.k))
      case 0x3c | 0x9c => if s.x == 0 then Returned(0) else SetA(s, Computed(f.code, s.a, s.x))
      case 0x04 | 0x0c | 0x14 | 0x1c | 0x24 | 0x2c | 0x44 | 0x4c | 0x54 | 0x5c | 0x64 | 0x6c | 0x74 | 0x7c |
           0x84 | 0xa4 | 0xac => SetA(s, Computed(f.code, s.a, Operand(s, f)))
      case 0x15 | 0x1d | 0x25 | 0x2d | 0x35 | 0x3d | 0x45 | 0x4d => Branch(s, f, Compared(f.code, s.a, Operand(s, f)))
      case _ => Illegal
    }
  }

  // ----- the machine decodes every opcode as listed -----

  predicate AluNumber(code: Word16) {
    code in {0x04, 0x0c, 0x14, 0x1c, 0x24, 0x2c, 0x34, 0x3c, 0x44, 0x4c, 0x54, 0x5c, 0x64, 0x6c, 0x74, 0x7c, 0x84,
             0x94, 0x9c, 0xa4, 0xac}
  }

  predicate LoadNumber(code: Word16) { code in {0x20, 0x28, 0x30, 0x40, 0x48, 0x50} }
  predicate CondNumber(code: Word16) { code in {0x15, 0x1d, 0x25, 0x2d, 0x35, 0x3d, 0x45, 0x4d} }
  predicate MoveNumber(code: Word16) { code in {0x00, 0x01, 0x02, 0x03, 0x07, 0x60, 0x61, 0x87} }

  lemma AluNumbers(code: Word16)
    ensures IsAlu(code) <==> AluNumber(code)
  {
  }

  lemma CondNumbers(code: Word16)
    ensures IsCondJmp(code) <==> CondNumber(code)
  {
  }

  lemma OtherNumbers(code: Word16)
    ensures IsPacketLoad(code) <==> LoadNumber(code)
    ensures IsMove(code) <==> MoveNumber(code)
    ensures IsStore(code) <==> code == 0x02 || code == 0x03
    ensures IsLoadMem(code) <==> code == 0x60 || code == 0x61
    ensures IsLoadImm(code) <==> code == 0x00 || code == 0x01
    ensures IsTax(code) <==> code == 0x07
    ensures IsTxa(code) <==> code == 0x87
    ensures IsJa(code) <==> code == 0x05
    ensures IsMsh(code) <==> code == 0xb1
    ensures IsRet(code) <==> code == 0x06 || code == 0x16
  {
  }

  lemma AluOps(code: Word16)
    requires AluNumber(code)
    ensures Op(code) == code - code % 16
    ensures code % 16 == 4 || code % 16 == 12
  {
  }

  lemma SumsByNumber(code: Word16, a: Word32, b: Word32)
    requires code in {0x04, 0x0c, 0x14, 0x1c, 0x84, 0x44, 0x4c, 0x54, 0x5c, 0xa4, 0xac}
    ensures Arith(Op(code), a, b) == Computed(code, a, b) % 0x1_0000_0000
  {
    hide BitAnd, BitOr, BitXor, Pow2, Op;
    AluOps(code);
    WordsStayWords(a, b);
  }

  lemma ProductsByNumber(code: Word16, a: Word32, b: Word32)
    requires code in {0x24, 0x2c, 0x64, 0x6c}
    ensures Arith(Op(code), a, b) == Computed(code, a, b) % 0x1_0000_0000
  {
    hide Pow2, Op;
    AluOps(code);
  }

  lemma QuotientsByNumber(code: Word16, a: Word32, b: Word32)
    requires code in {0x34, 0x3c, 0x74, 0x7c, 0x94, 0x9c} && (code in {0x74, 0x7c} || b != 0)
    ensures Arith(Op(code), a, b) == Computed(code, a, b) % 0x1_0000_0000
  {
    hide Pow2, Op, Quotient32;
    AluOps(code);
    if code in {0x34, 0x3c} {
      QuotientFits(a, b);
    } else if code in {0x74, 0x7c} {
      QuotientFits(a, Pow2(b % 32));
    } else {
      RemainderIsWord(a, b);
    }
  }

  lemma ArithByNumber(code: Word16, a: Word32, b: Word32)
    requires AluNumber(code) && (code in {0x34, 0x3c, 0x94, 0x9c} ==> b != 0)
    ensures Arith(Op(code), a, b) == Computed(code, a, b) % 0x1_0000_0000
  {
    hide Arith, Computed, Op;
    if code in {0x24, 0x2c, 0x64, 0x6c} {
      ProductsByNumber(code, a, b);
    } else if code in {0x34, 0x3c, 0x74, 0x7c, 0x94, 0x9c} {
      QuotientsByNumber(code, a, b);
    } else {
      SumsByNumber(code, a, b);
    }
  }

  lemma QuotientFits(a: Word32, d: nat)
    requires d > 0
    ensures a / d % 0x1_0000_0000 == a / d == Quotient32(a, d)
  {
    U32Same(Quotient32(a, d));
  }

  lemma AluFields(code: Word16)
    requires AluNumber(code)
    ensures Src(code) == (if code in {0x0c, 0x1c, 0x2c, 0x3c, 0x4c, 0x5c, 0x6c, 0x7c, 0x9c, 0xac} then BPF_X else BPF_K)
    ensures IsDivision(code) <==> code in {0x34, 0x3c, 0x94, 0x9c}
  {
  }

  lemma AluStep(pkt: Packet, s: CState, f: SockFilter)
    requires AluNumber(f.code)
    ensures ExecC(pkt, s, f) == ByNumber(pkt, s, f)
  {
    hide Class, Op, Src, Arith, Computed, IsAlu, IsDivision, PacketValue;
    AluNumbers(f.code);
    AluFields(f.code);
    if f.code !in {0x34, 0x3c, 0x94, 0x9c} || Operand(s, f) != 0 {
      ArithByNumber(f.code, s.a, Operand(s, f));
    }
  }

  lemma CondStep(pkt: Packet, s: CState, f: SockFilter)
    requires CondNumber(f.code)
    ensures ExecC(pkt, s, f) == ByNumber(pkt, s, f)
  {
    hide BitAnd, Arith, Computed, IsAlu, IsDivision, IsCondJmp, PacketValue;
    AluNumbers(f.code);
    CondNumbers(f.code);
  }

  lemma ValueBytes(pkt: Packet, off: nat, size: nat)
    requires size == 1 || size == 2 || size == 4
    ensures BytesAt(pkt, off, size) == PacketValue(pkt, off, size)
    ensures BytesAt(pkt, off, size).Some? ==> BytesAt(pkt, off, size).value < 0x1_0000_0000
  {
    hide DecodeBE;
    if off + size <= |pkt| {
      var part := pkt[off..off + size];
      if AllReadable(part) {
        forall j | off <= j < off + size ensures pkt[j].Readable? {
          assert pkt[j] == part[j - off];
        }
        BigEndianSum(Values(part));
      } else {
        var b :| b in part && b.Faulting?;
        var j :| 0 <= j < |part| && part[j] == b;
        assert pkt[off + j].Faulting?;
      }
    }
  }

  lemma LoadStep(pkt: Packet, s: CState, f: SockFilter)
    requires LoadNumber(f.code) || f.code == 0xb1
    ensures ExecC(pkt, s, f) == ByNumber(pkt, s, f)
  {
    hide Arith, Computed, IsAlu, IsDivision, IsCondJmp, PacketValue, BytesAt;
    AluNumbers(f.code);
    CondNumbers(f.code);
    var size := if f.code in {0x20, 0x40} then 4 else if f.code in {0x28, 0x48} then 2 else 1;
    ValueBytes(pkt, f.k, size);
    ValueBytes(pkt, s.x + f.k, size);
  }

  /** The machine does what the table says for every opcode, known or not. */
  lemma StepByNumber(pkt: Packet, s: CState, f: SockFilter)
    ensures ExecC(pkt, s, f) == ByNumber(pkt, s, f)
  {
    hide Arith, Computed, IsAlu, IsDivision, IsCondJmp, PacketValue, BytesAt, Condition, Compared;
    if AluNumber(f.code) {
      AluStep(pkt, s, f);
    } else if CondNumber(f.code) {
      CondStep(pkt, s, f);
    } else if LoadNumber(f.code) || f.code == 0xb1 {
      LoadStep(pkt, s, f);
    } else {
      AluNumbers(f.code);
      CondNumbers(f.code);
    }
  }

  // ----- what the converter accepts -----

  /** The 47 case labels of the converter's switch. */
  predicate KnownNumber(code: Word16) {
    code in {0x00, 0x01, 0x02, 0x03, 0x04, 0x05, 0x06, 0x07, 0x0c, 0x14, 0x15, 0x16, 0x1c, 0x1d, 0x20, 0x24,
             0x25, 0x28, 0x2c, 0x2d, 0x30, 0x34, 0x35, 0x3c, 0x3d, 0x40, 0x44, 0x45, 0x48, 0x4c, 0x4d, 0x50,
             0x54, 0x5c, 0x60, 0x61, 0x64, 0x6c, 0x74, 0x7c, 0x84, 0x87, 0x94, 0x9c, 0xa4, 0xac, 0xb1}
  }

  lemma SupportedNumbers(code: Word16)
    ensures Supported(code) <==> KnownNumber(code)
  {
    hide IsAlu, IsCondJmp;
    AluNumbers(code);
    CondNumbers(code);
    OtherNumbers(code);
  }

  /** The targets that instruction `i` of `len` uses are inside the program. A conditional jump with jf = 0 falls
      through instead of using jf, one with jt = 0 falls through instead of using jt unless it is a JSET. */
  predicate TargetsAreIn(f: SockFilter, i: int, len: int) {
    match f.code {
      case 0x05 => 0 <= i + 1 + AsSigned(f.k) < len
      case 0x15 | 0x1d | 0x25 | 0x2d | 0x35 | 0x3d =>
        (f.jf == 0 || f.jt != 0 ==> i + 1 + f.jt < len) && (f.jf != 0 ==> i + 1 + f.jf < len)
      case 0x45 | 0x4d => i + 1 + f.jt < len && (f.jf != 0 ==> i + 1 + f.jf < len)
      case _ => true
    }
  }

  /** `target = i + fp->k + 1` is the integer sum of signed numbers wherever that is inside the program, and outside
      the program otherwise. */
  lemma JaTargetByNumber(f: SockFilter, i: int, len: int)
    requires 0 <= i < len <= 4096
    ensures 0 <= JaTarget(f, i) < len <==> 0 <= i + 1 + AsSigned(f.k) < len
    ensures 0 <= i + 1 + AsSigned(f.k) < len ==> JaTarget(f, i) == i + 1 + AsSigned(f.k)
  {
  }

  lemma TargetsByNumber(prog: seq<SockFilter>, i: int)
    requires 0 <= i < |prog| <= 4096
    ensures TargetsInside(prog, i) <==> KnownNumber(prog[i].code) && TargetsAreIn(prog[i], i, |prog|)
  {
    hide IsAlu, IsCondJmp, Supported, CondPrefix, JaTarget, AsSigned;
    var f := prog[i];
    SupportedNumbers(f.code);
    CondNumbers(f.code);
    JaTargetByNumber(f, i, |prog|);
  }

  /** The length query accepts exactly the programs of 1 to 4096 known opcodes whose targets are inside. */
  lemma QueryByNumber(prog: seq<SockFilter>)
    ensures QueryOk(prog) <==>
      0 < |prog| <= 4096 &&
      forall i | 0 <= i < |prog| :: KnownNumber(prog[i].code) && TargetsAreIn(prog[i], i, |prog|)
  {
    hide QueryBlock, TargetsInside, KnownNumber, TargetsAreIn;
    forall i | 0 <= i < |prog| <= 4096
      ensures QueryBlock(prog, i).Some? <==> KnownNumber(prog[i].code) && TargetsAreIn(prog[i], i, |prog|)
    {
      QueryAccepts(prog, i);
      TargetsByNumber(prog, i);
    }
  }

  /** What makes a filter legal, forward, and ending in RET. */
  lemma LegalByNumber(prog: seq<SockFilter>)
    ensures Legal(prog) <==> forall i | 0 <= i < |prog| ::
      (prog[i].code in {0x02, 0x03, 0x60, 0x61} ==> prog[i].k < 16) && (prog[i].code in {0x34, 0x94} ==> prog[i].k != 0)
    ensures ForwardOnly(prog) <==> forall i | 0 <= i < |prog| :: prog[i].code == 0x05 ==> prog[i].k < 0x8000_0000
    ensures EndsInRet(prog) <==> prog != [] && prog[|prog| - 1].code in {0x06, 0x16}
  {
    hide IsDivision, Src;
    forall i | 0 <= i < |prog|
      ensures IsDivision(prog[i].code) && Src(prog[i].code) == BPF_K <==> prog[i].code in {0x34, 0x94}
    {
      DivisionNumbers(prog[i].code);
    }
  }

  lemma DivisionNumbers(code: Word16)
    ensures IsDivision(code) && Src(code) == BPF_K <==> code in {0x34, 0x94}
  {
    hide IsAlu, Op, Src;
    AluNumbers(code);
    if AluNumber(code) {
      AluFields(code);
    }
  }
}
