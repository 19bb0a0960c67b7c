/** The source machine: classic BPF over (pc, A, X, M[16]) and a packet. */
module Cbpf {
  import opened Words
  import opened Opcodes

  datatype SockFilter = SockFilter(code: Word16, jt: Byte, jf: Byte, k: Word32)

  /** A packet byte, or a byte whose read would fault. */
  datatype PacketByte = Readable(value: Byte) | Faulting
  type Packet = seq<PacketByte>

  type Scratch = m: seq<Word32> | |m| == BPF_MEMWORDS witness seq(BPF_MEMWORDS, _ => 0)

  datatype CState = CState(pc: int, a: Word32, x: Word32, mem: Scratch)

  datatype Outcome =
    | Going(state: CState)
    | Returned(value: Word32)
    | FellOff  // the program counter left the program
    | Illegal  // unknown opcode, scratch index above 15, or division by the constant 0

  datatype Option<T> = None | Some(value: T) {
    function GetOr(default: T): T {
      if Some? then value else default
    }
  }

  // ----- the opcodes the converter knows, by case of its switch -----

  predicate IsAlu(code: Word16) {
    code < 256 && Class(code) == BPF_ALU &&
    (Op(code) == BPF_ADD || Op(code) == BPF_SUB || Op(code) == BPF_AND || Op(code) == BPF_OR ||
     Op(code) == BPF_LSH || Op(code) == BPF_RSH || Op(code) == BPF_XOR || Op(code) == BPF_MUL ||
     Op(code) == BPF_DIV || Op(code) == BPF_MOD || code == BPF_ALU + BPF_NEG)
  }

  predicate IsDivision(code: Word16) { IsAlu(code) && (Op(code) == BPF_DIV || Op(code) == BPF_MOD) }

  predicate IsPacketLoad(code: Word16) {
    code == BPF_LD + BPF_ABS + BPF_W || code == BPF_LD + BPF_ABS + BPF_H || code == BPF_LD + BPF_ABS + BPF_B ||
    code == BPF_LD + BPF_IND + BPF_W || code == BPF_LD + BPF_IND + BPF_H || code == BPF_LD + BPF_IND + BPF_B
  }

  predicate IsJa(code: Word16) { code == BPF_JMP + BPF_JA }

  predicate IsCondJmp(code: Word16) {
    code < 256 && Class(code) == BPF_JMP &&
    (Op(code) == BPF_JEQ || Op(code) == BPF_JGT || Op(code) == BPF_JGE || Op(code) == BPF_JSET)
  }

  predicate IsMsh(code: Word16) { code == BPF_LDX + BPF_MSH + BPF_B }
  predicate IsRet(code: Word16) { code == BPF_RET + BPF_A || code == BPF_RET + BPF_K }
  predicate IsStore(code: Word16) { code == BPF_ST || code == BPF_STX }
  predicate IsLoadMem(code: Word16) { code == BPF_LD + BPF_MEM || code == BPF_LDX + BPF_MEM }
  predicate IsLoadImm(code: Word16) { code == BPF_LD + BPF_IMM || code == BPF_LDX + BPF_IMM }
  predicate IsTax(code: Word16) { code == BPF_MISC + BPF_TAX }
  predicate IsTxa(code: Word16) { code == BPF_MISC + BPF_TXA }

  // ----- semantics -----

  predicate AllReadable(bytes: Packet) {
    forall b | b in bytes :: b.Readable?
  }

  function Values(bytes: Packet): (s: seq<Byte>)
    requires AllReadable(bytes)
    ensures |s| == |bytes|
  {
    seq<Byte>(|bytes|, j requires 0 <= j < |bytes| => bytes[j].value)
  }

  /** The big-endian value of `size` packet bytes at `off`, or nothing: offsets from 2^31 up never load. */
  function PacketValue(pkt: Packet, off: nat, size: nat): Option<nat> {
    if off < TWO31 && off + size <= |pkt| && AllReadable(pkt[off..off + size]) then
      Some(DecodeBE(Values(pkt[off..off + size])))
    else None
  }

  function AluOperand(f: SockFilter, s: CState): Word32 { if Src(f.code) == BPF_X then s.x else f.k }

  /** Classic arithmetic on 32-bit numbers; shift counts are taken modulo 32. */
  function Arith(op: nat, a: Word32, b: Word32): Word32
    requires op == BPF_DIV || op == BPF_MOD ==> b != 0
  {
    if op == BPF_ADD then if a + b < TWO32 then a + b else a + b - TWO32
    else if op == BPF_SUB then if a >= b then a - b else a - b + TWO32
    else if op == BPF_MUL then a * b % TWO32
    else if op == BPF_DIV then Quotient32(a, b)
    else if op == BPF_MOD then a % b
    else if op == BPF_AND then BitAnd(a, b)
    else if op == BPF_OR then Or32(a, b)
    else if op == BPF_XOR then Xor32(a, b)
    else if op == BPF_LSH then a * Pow2(b % 32) % TWO32
    else if op == BPF_RSH then Quotient32(a, Pow2(b % 32))
    else if a == 0 then 0 else TWO32 - a  // NEG
  }

  predicate Condition(op: nat, a: Word32, operand: Word32) {
    if op == BPF_JEQ then a == operand
    else if op == BPF_JGT then a > operand
    else if op == BPF_JGE then a >= operand
    else BitAnd(a, operand) != 0
  }

  function NextC(s: CState): CState { s.(pc := s.pc + 1) }

  function ExecC(pkt: Packet, s: CState, f: SockFilter): Outcome {
    if IsAlu(f.code) then
      if IsDivision(f.code) && AluOperand(f, s) == 0 then
        if Src(f.code) == BPF_X then Returned(0) else Illegal
      else
        Going(NextC(s).(a := Arith(Op(f.code), s.a, AluOperand(f, s))))
    else if IsPacketLoad(f.code) then
      match PacketValue(pkt, (if Mode(f.code) == BPF_IND then s.x else 0) + f.k, SizeBytes(f.code)) {
        case Some(v) => Going(NextC(s).(a := ToU32(v)))
        case None => Returned(0)
      }
    else if IsJa(f.code) then Going(s.(pc := s.pc + 1 + ToS32(f.k)))
    else if IsCondJmp(f.code) then
      Going(s.(pc := s.pc + 1 + if Condition(Op(f.code), s.a, AluOperand(f, s)) then f.jt else f.jf))
    else if IsMsh(f.code) then
      match PacketValue(pkt, f.k, 1) {
        case Some(v) => Going(NextC(s).(x := 4 * (v % 16)))
        case None => Returned(0)
      }
    else if IsRet(f.code) then Returned(if f.code == BPF_RET + BPF_A then s.a else f.k)
    else if IsStore(f.code) then
      if f.k < BPF_MEMWORDS then
        Going(NextC(s).(mem := s.mem[f.k := if f.code == BPF_ST then s.a else s.x]))
      else Illegal
    else if IsLoadMem(f.code) then
      if f.k >= BPF_MEMWORDS then Illegal
      else if Class(f.code) == BPF_LD then Going(NextC(s).(a := s.mem[f.k]))
      else Going(NextC(s).(x := s.mem[f.k]))
    else if IsLoadImm(f.code) then
      if Class(f.code) == BPF_LD then Going(NextC(s).(a := f.k)) else Going(NextC(s).(x := f.k))
    else if IsTax(f.code) then Going(NextC(s).(x := s.a))
    else if IsTxa(f.code) then Going(NextC(s).(a := s.x))
    else Illegal
  }

  function StepC(prog: seq<SockFilter>, pkt: Packet, s: CState): Outcome {
    if 0 <= s.pc < |prog| then ExecC(pkt, s, prog[s.pc]) else FellOff
  }

  /** The outcome after at most `n` steps. */
  function IterC(prog: seq<SockFilter>, pkt: Packet, c: Outcome, n: nat): Outcome
    decreases n
  {
    if n == 0 || !c.Going? then c else IterC(prog, pkt, StepC(prog, pkt, c.state), n - 1)
  }

  /** A classic filter starts at its first instruction with A = X = 0. */
  function StartC(mem: Scratch): CState { CState(0, 0, 0, mem) }

  function RunC(prog: seq<SockFilter>, pkt: Packet, mem: Scratch, n: nat): Outcome {
    IterC(prog, pkt, Going(StartC(mem)), n)
  }

  lemma {:induction false} IterCAdd(prog: seq<SockFilter>, pkt: Packet, c: Outcome, m: nat, n: nat)
    ensures IterC(prog, pkt, c, m + n) == IterC(prog, pkt, IterC(prog, pkt, c, m), n)
    decreases m
  {
    hide StepC;
    if m > 0 && c.Going? {
      IterCAdd(prog, pkt, StepC(prog, pkt, c.state), m - 1, n);
    }
  }

  // ----- what a classic filter must satisfy for its meaning to be defined -----

  /** Scratch indices are below 16 and no constant divisor is 0. */
  predicate LegalInsn(f: SockFilter) {
    ((IsStore(f.code) || IsLoadMem(f.code)) ==> f.k < BPF_MEMWORDS) &&
    (IsDivision(f.code) && Src(f.code) == BPF_K ==> f.k != 0)
  }

  predicate Legal(prog: seq<SockFilter>) {
    forall i | 0 <= i < |prog| :: LegalInsn(prog[i])
  }

  /** Only JA has a displacement wide enough to be negative. */
  predicate ForwardOnly(prog: seq<SockFilter>) {
    forall i | 0 <= i < |prog| :: IsJa(prog[i].code) ==> ToS32(prog[i].k) >= 0
  }

  predicate EndsInRet(prog: seq<SockFilter>) {
    prog != [] && IsRet(prog[|prog| - 1].code)
  }
}
