/** The emitted packet load reads exactly what a classic packet load reads. */
module PacketLoads {
  import opened Words
  import opened Opcodes
  import opened Ebpf
  import opened Rules
  import opened Cbpf
  import opened Translation

  // ----- the packet and the frame -----

  /** The packet a filter is called on: data_end below data is an empty packet. */
  function PacketOf(env: Env): Packet {
    if env.dataEnd < env.data then [] else
    seq(env.dataEnd - env.data, j requires 0 <= j < env.dataEnd - env.data =>
      if Plus(env.data, j) in env.memory then Readable(env.memory[Plus(env.data, j)]) else Faulting)
  }

  predicate SavedBounds(env: Env, frame: Frame) {
    LoadFrame(env.bigEndian, frame, STACK_SIZE + DATA_SLOT, 8) == env.data &&
    LoadFrame(env.bigEndian, frame, STACK_SIZE + DATA_END_SLOT, 8) == env.dataEnd
  }

  /** Two frames agree outside the four bytes of the load buffer. */
  predicate SameButBuffer(frame: Frame, frame': Frame) {
    var low := STACK_SIZE + BUFFER_SLOT;
    frame'[..low] == frame[..low] && frame'[low + 4..] == frame[low + 4..]
  }

  // ----- the parts of the load -----

  lemma AbsOffset(prog: seq<BpfInsn>, env: Env, at: int, k: Word32, t: State) returns (n: nat, t': State)
    requires CodeAt(prog, at, LoadOffset(false, ToS32(k))) && t.pc == at
    ensures At(prog, env, t, n, t') && n > 0
    ensures t' == SetReg(t, 2, k)
  {
    hide Exec, At;
    Fetch(prog, at, LoadOffset(false, ToS32(k)));
    Begin(prog, env, t);
    U32OfS32(k);
    t' := DoMov32Imm(prog, env, t, 0, t, 2, ToS32(k));
    n := 1;
  }

  /** R2 = X + k, unless that sum does not fit in 32 bits. */
  lemma IndOffset(prog: seq<BpfInsn>, env: Env, at: int, k: Word32, t: State) returns (n: nat, t': State)
    requires CodeAt(prog, at, LoadOffset(true, ToS32(k))) && t.pc == at && t.regs[7] < TWO32
    ensures At(prog, env, t, n, t') && n > 0
    ensures t'.frame == t.frame && t'.regs[7] == t.regs[7] && t'.regs[10] == t.regs[10]
    ensures t.regs[7] + k < TWO32 ==> t'.pc == at + 4 && t'.regs[2] == t.regs[7] + k
    ensures t.regs[7] + k >= TWO32 ==> t'.pc == at + 21
  {
    hide Exec, At, ToU32, ToS32;
    Fetch(prog, at, LoadOffset(true, ToS32(k)));
    Begin(prog, env, t);
    U32Same(t.regs[7]);
    U32OfS32(k);
    U32Sum(t.regs[7], k);
    var t1 := DoMov32Reg(prog, env, t, 0, t, 2, 7);
    var t2 := DoMov32Reg(prog, env, t, 1, t1, 1, 2);
    var t3 := DoAdd32Imm(prog, env, t, 2, t2, 2, ToS32(k));
    t' := DoJmpReg(prog, env, t, 3, t3, BPF_JLT, 2, 1, 17);
    n := 4;
  }

  /** R3 = R2 + size, unless R2 has its top bit set. */
  lemma EndPart(prog: seq<BpfInsn>, env: Env, at: int, size: Byte, t: State) returns (n: nat, t': State)
    requires CodeAt(prog, at, CheckEnd(size)) && t.pc == at && t.regs[2] < TWO32 && size <= 4
    ensures At(prog, env, t, n, t')
    ensures t'.frame == t.frame && t'.regs[7] == t.regs[7] && t'.regs[10] == t.regs[10] && t'.regs[2] == t.regs[2]
    ensures t.regs[2] < TWO31 ==> t'.pc == at + 4 && t'.regs[3] == t.regs[2] + size
    ensures t.regs[2] >= TWO31 ==> t'.pc == at + 17
  {
    hide Exec, At, ToU32;
    Fetch(prog, at, CheckEnd(size));
    Begin(prog, env, t);
    U32Same(t.regs[2]);
    U32Same(size);
    U32Same(0);
    t' := DoJmp32Imm(prog, env, t, 0, t, BPF_JSLT, 2, 0, 16);
    n := 1;
    if t.regs[2] < TWO31 {
      U32Sum(t.regs[2], size);
      var t1 := DoMov32Reg(prog, env, t, 1, t', 3, 2);
      var t2 := DoAdd32Imm(prog, env, t, 2, t1, 3, size);
      t' := DoJmpReg(prog, env, t, 3, t2, BPF_JLT, 3, 2, 13);
      n := 4;
    }
  }

  /** Past the bounds check exactly when R3 <= data_end - data over the integers. */
  lemma BoundsPart(prog: seq<BpfInsn>, env: Env, at: int, t: State) returns (n: nat, t': State)
    requires CodeAt(prog, at, CheckBounds()) && t.pc == at && t.regs[10] == env.fp && SavedBounds(env, t.frame)
    requires t.regs[3] > 0
    ensures At(prog, env, t, n, t')
    ensures t'.frame == t.frame && t'.regs[7] == t.regs[7] && t'.regs[10] == t.regs[10] && t'.regs[2] == t.regs[2]
    ensures t.regs[3] <= env.dataEnd - env.data ==> t'.pc == at + 5 && t'.regs[4] == env.data
    ensures t.regs[3] > env.dataEnd - env.data ==> t'.pc == at + 13
  {
    hide Exec, At, ToU64, LoadFrame;
    Fetch(prog, at, CheckBounds());
    Begin(prog, env, t);
    U64Same(env.data);
    U64Same(env.dataEnd);
    var t1 := DoLdx(prog, env, t, 0, t, BPF_DW, 4, DATA_SLOT);
    var t2 := DoLdx(prog, env, t, 1, t1, BPF_DW, 5, DATA_END_SLOT);
    t' := DoJmpReg(prog, env, t, 2, t2, BPF_JLT, 5, 4, 10);
    n := 3;
    if env.data <= env.dataEnd {
      U64Same(env.dataEnd - env.data);
      var t3 := DoSub64Reg(prog, env, t, 3, t', 5, 4);
      t' := DoJmpReg(prog, env, t, 4, t3, BPF_JGT, 3, 5, 8);
      n := 5;
    }
  }

  /** The probe read fills the buffer with the packet bytes, or the run reaches the failure epilogue. */
  lemma ProbePart(prog: seq<BpfInsn>, env: Env, at: int, size: Byte, t: State)
    returns (n: nat, t': State, bytes: seq<Byte>)
    requires CodeAt(prog, at, Probe(size)) && t.pc == at && t.regs[10] == env.fp && size <= 4
    requires t.regs[4] == env.data && t.regs[2] + size <= env.dataEnd - env.data
    ensures At(prog, env, t, n, t')
    ensures t'.regs[7] == t.regs[7] && t'.regs[10] == t.regs[10]
    ensures |bytes| == size && t'.frame == StoreFrame(t.frame, STACK_SIZE + BUFFER_SLOT, bytes)
    ensures Mapped(env, Plus(env.data, t.regs[2]), size) ==>
      t'.pc == at + 10 && bytes == KernelBytes(env, Plus(env.data, t.regs[2]), size)
    ensures !Mapped(env, Plus(env.data, t.regs[2]), size) ==> t'.pc == at + 8
  {
    hide Exec, At, ToU64, StoreFrame, Mapped, KernelBytes;
    Fetch(prog, at, Probe(size));
    Begin(prog, env, t);
    U64Same(env.fp + BUFFER_SLOT);
    U64Same(size);
    U64Same(0);
    var t1 := DoMov64Reg(prog, env, t, 0, t, 1, 10);
    var t2 := DoAdd64Imm(prog, env, t, 1, t1, 1, BUFFER_SLOT);
    var t3 := DoMov64Reg(prog, env, t, 2, t2, 3, 4);
    var t4 := DoAdd64Reg(prog, env, t, 3, t3, 3, 2);
    var t5 := DoMov64Imm(prog, env, t, 4, t4, 2, size);
    var t6;
    t6, bytes := DoProbe(prog, env, t, 5, t5, STACK_SIZE + BUFFER_SLOT, size);
    t' := DoJmpImm(prog, env, t, 6, t6, BPF_JNE, 0, 0, 1);
    n := 7;
    if t6.regs[0] == 0 {
      t' := DoJa(prog, env, t, 7, t', 2);
      n := 8;
    }
  }

  lemma FailPart(prog: seq<BpfInsn>, env: Env, at: int, t: State)
    requires CodeAt(prog, at, EpilogueFail()) && t.pc == at
    ensures Run(prog, env, t, 2) == Exited(0)
  {
    hide Exec, At;
    Fetch(prog, at, EpilogueFail());
    Begin(prog, env, t);
    var t1 := DoMov64Imm(prog, env, t, 0, t, 0, 0);
    DoExit(prog, env, t, 1, t1);
  }

  lemma ValueBound(bigEndian: bool, bytes: seq<Byte>)
    requires |bytes| in {1, 2, 4}
    ensures Decode(bigEndian, bytes) < Pow256(|bytes|) <= TWO32 && DecodeBE(bytes) < TWO32
  {
    hide Pow256, DecodeBE, DecodeLE;
    DecodeBound(bigEndian, bytes);
    DecodeBound(true, bytes);
    Pow256Small();
  }

  /** A becomes the big-endian value of the buffered bytes. */
  lemma ValuePart(prog: seq<BpfInsn>, env: Env, at: int, code: Word16, t: State, bytes: seq<Byte>)
    returns (n: nat, t': State)
    requires IsPacketLoad(code) && CodeAt(prog, at, LoadValue(code)) && t.pc == at && t.regs[10] == env.fp
    requires |bytes| == SizeBytes(code) && LoadBytes(t.frame, |bytes|) == bytes
    ensures At(prog, env, t, n, t')
    ensures t'.pc == at + |LoadValue(code)| && t'.frame == t.frame
    ensures t'.regs[0] == DecodeBE(bytes) && t'.regs[7] == t.regs[7] && t'.regs[10] == t.regs[10]
  {
    hide Exec, At, ToU64, Decode, FromBE, ToU32, Pow256, DecodeBE;
    Fetch(prog, at, LoadValue(code));
    Begin(prog, env, t);
    var size := SizeBytes(code);
    var v := Decode(env.bigEndian, bytes);
    ValueBound(env.bigEndian, bytes);
    U64Same(v);
    assert AccessBytes(Size(code)) == size;
    t' := DoLdx(prog, env, t, 0, t, Size(code), 0, BUFFER_SLOT);
    n := 1;
    if size == 1 {
      SingleByte(env.bigEndian, bytes);
    } else {
      LoadThenFromBE(env.bigEndian, bytes);
      U32Same(DecodeBE(bytes));
      t' := DoFromBE(prog, env, t, 1, t', 0, size);
      n := 2;
    }
  }

  function LoadBytes(frame: Frame, size: nat): seq<Byte>
    requires size <= 4
  {
    frame[STACK_SIZE + BUFFER_SLOT..STACK_SIZE + BUFFER_SLOT + size]
  }

  lemma SingleByte(bigEndian: bool, bytes: seq<Byte>)
    requires |bytes| == 1
    ensures Decode(bigEndian, bytes) == bytes[0] && DecodeBE(bytes) == bytes[0]
  {
    assert bytes[..0] == [] && bytes[1..] == [];
    assert DecodeBE(bytes[..0]) == 0 && DecodeLE(bytes[1..]) == 0;
    assert |bytes| - 1 == 0;
  }

  // ----- the whole load -----

  /** What the classic load would read is what the probe read delivers. */
  lemma ProbedBytes(env: Env, off: nat, size: nat)
    requires off < TWO31 && off + size <= env.dataEnd - env.data && 0 < size
    ensures var part := PacketOf(env)[off..off + size];
      AllReadable(part) == Mapped(env, Plus(env.data, off), size) &&
      (AllReadable(part) ==> Values(part) == KernelBytes(env, Plus(env.data, off), size))
  {
    hide Plus;
    var part := PacketOf(env)[off..off + size];
    forall j | 0 <= j < size
      ensures Plus(Plus(env.data, off), j) == Plus(env.data, off + j)
      ensures part[j] == if Plus(Plus(env.data, off), j) in env.memory
                         then Readable(env.memory[Plus(Plus(env.data, off), j)]) else Faulting
    {
      PlusPlus(env.data, off, j);
      assert part[j] == PacketOf(env)[off + j];
    }
    if Mapped(env, Plus(env.data, off), size) {
      forall b | b in part ensures b.Readable? {
        var j :| 0 <= j < |part| && part[j] == b;
      }
    } else {
      var j :| 0 <= j < size && Plus(Plus(env.data, off), j) !in env.memory;
      assert part[j] in part;
    }
  }

  lemma PlusPlus(addr: Word64, i: nat, j: nat)
    requires addr + i + j < TWO64
    ensures Plus(Plus(addr, i), j) == Plus(addr, i + j)
  {
    U64Same(addr + i);
  }

  lemma PartLengths(size: Byte)
    ensures |CheckEnd(size)| == 4 && |CheckBounds()| == 5 && |Probe(size)| == 8 && |EpilogueFail()| == 2
  {
  }

  lemma PacketLoadParts(prog: seq<BpfInsn>, at: int, code: Word16, imm: Int32)
    requires IsPacketLoad(code) && CodeAt(prog, at, PacketLoad(code, imm))
    ensures var at1 := at + |LoadOffset(Mode(code) == BPF_IND, imm)|;
      CodeAt(prog, at, LoadOffset(Mode(code) == BPF_IND, imm)) &&
      CodeAt(prog, at1, CheckEnd(SizeBytes(code))) &&
      CodeAt(prog, at1 + 4, CheckBounds()) &&
      CodeAt(prog, at1 + 9, Probe(SizeBytes(code))) &&
      CodeAt(prog, at1 + 17, EpilogueFail()) &&
      CodeAt(prog, at1 + 19, LoadValue(code))
  {
    var a, b, c := LoadOffset(Mode(code) == BPF_IND, imm), CheckEnd(SizeBytes(code)), CheckBounds();
    var d, e, f := Probe(SizeBytes(code)), EpilogueFail(), LoadValue(code);
    hide CodeAt, LoadOffset, LoadValue, CheckEnd, CheckBounds, Probe, EpilogueFail;
    PartLengths(SizeBytes(code));
    CodeAtSplit(prog, at, a + b + c + d + e, f);
    CodeAtSplit(prog, at, a + b + c + d, e);
    CodeAtSplit(prog, at, a + b + c, d);
    CodeAtSplit(prog, at, a + b, c);
    CodeAtSplit(prog, at, a, b);
  }

  /** What a packet load leaves behind: A holds the value; X, R10 and the frame outside the buffer are as before. */
  predicate Loaded(env: Env, t: State, t': State, v: nat, to: int) {
    t'.pc == to && t'.regs[0] == v && t'.regs[7] == t.regs[7] && t'.regs[10] == t.regs[10] &&
    SameButBuffer(t.frame, t'.frame)
  }

  function LoadAt(code: Word16, k: Word32, x: Word64): nat {
    (if Mode(code) == BPF_IND then x else 0) + k
  }

  /** The run passes the checks exactly when the bytes lie inside the packet and below 2^31. */
  lemma ChecksPart(prog: seq<BpfInsn>, env: Env, at: int, code: Word16, k: Word32, t: State)
    returns (n: nat, t': State)
    requires IsPacketLoad(code) && CodeAt(prog, at, PacketLoad(code, ToS32(k))) && t.pc == at
    requires t.regs[7] < TWO32 && t.regs[10] == env.fp && SavedBounds(env, t.frame)
    ensures n > 0 && At(prog, env, t, n, t')
    ensures t'.frame == t.frame && t'.regs[7] == t.regs[7] && t'.regs[10] == t.regs[10]
    ensures var off, at1 := LoadAt(code, k, t.regs[7]), at + |LoadOffset(Mode(code) == BPF_IND, ToS32(k))|;
      if off < TWO31 && off + SizeBytes(code) <= env.dataEnd - env.data then
        t'.pc == at1 + 9 && t'.regs[2] == off && t'.regs[4] == env.data
      else t'.pc == at1 + 17
  {
    hide Exec, Iter, SavedBounds, PacketLoad, CheckEnd, CheckBounds;
    PacketLoadParts(prog, at, code, ToS32(k));
    var ind, size, off := Mode(code) == BPF_IND, SizeBytes(code), LoadAt(code, k, t.regs[7]);
    var at1 := at + |LoadOffset(ind, ToS32(k))|;
    if ind {
      n, t' := IndOffset(prog, env, at, k, t);
    } else {
      n, t' := AbsOffset(prog, env, at, k, t);
    }
    if off < TWO32 {
      var m, u := EndPart(prog, env, at1, size, t');
      Concat(prog, env, t, n, t', m);
      n, t' := n + m, u;
      if off < TWO31 {
        var m, u := BoundsPart(prog, env, at1 + 4, t');
        Concat(prog, env, t, n, t', m);
        n, t' := n + m, u;
      }
    }
  }

  /** From the probe read on: the value is loaded, or the probe read fails and the filter exits with 0. */
  lemma ReadPart(prog: seq<BpfInsn>, env: Env, at: int, code: Word16, t: State) returns (n: nat, t': State)
    requires IsPacketLoad(code) && t.pc == at && t.regs[10] == env.fp && t.regs[4] == env.data
    requires t.regs[2] + SizeBytes(code) <= env.dataEnd - env.data
    requires CodeAt(prog, at, Probe(SizeBytes(code))) && CodeAt(prog, at + 8, EpilogueFail())
    requires CodeAt(prog, at + 10, LoadValue(code))
    ensures var from := Plus(env.data, t.regs[2]);
      if Mapped(env, from, SizeBytes(code)) then
        At(prog, env, t, n, t') &&
        Loaded(env, t, t', DecodeBE(KernelBytes(env, from, SizeBytes(code))), at + 10 + |LoadValue(code)|)
      else Run(prog, env, t, n) == Exited(0)
  {
    hide Exec, Iter, Mapped, KernelBytes, Probe, LoadValue, EpilogueFail, DecodeBE;
    var bytes;
    n, t', bytes := ProbePart(prog, env, at, SizeBytes(code), t);
    if Mapped(env, Plus(env.data, t.regs[2]), SizeBytes(code)) {
      var m, u := ValuePart(prog, env, at + 10, code, t', bytes);
      Concat(prog, env, t, n, t', m);
      n, t' := n + m, u;
    } else {
      FailPart(prog, env, at + 8, t');
      Concat(prog, env, t, n, t', 2);
      n := n + 2;
    }
  }

  /** The emitted load continues with the value of the classic load, or exits with 0 where that one fails. */
  lemma PacketLoadIsExact(prog: seq<BpfInsn>, env: Env, at: int, code: Word16, k: Word32, t: State)
    returns (n: nat, t': State)
    requires IsPacketLoad(code) && CodeAt(prog, at, PacketLoad(code, ToS32(k))) && t.pc == at
    requires t.regs[7] < TWO32 && t.regs[10] == env.fp && SavedBounds(env, t.frame)
    ensures n > 0
    ensures match PacketValue(PacketOf(env), LoadAt(code, k, t.regs[7]), SizeBytes(code))
      case Some(v) => v < TWO32 && Run(prog, env, t, n) == Running(t') &&
                      Loaded(env, t, t', v, at + |PacketLoad(code, ToS32(k))|)
      case None => Run(prog, env, t, n) == Exited(0)
  {
    hide Exec, Iter, SavedBounds, PacketLoad, Mapped, KernelBytes, DecodeBE, Probe, EpilogueFail, LoadValue, PacketOf;
    PacketLoadParts(prog, at, code, ToS32(k));
    PacketLoadLength(code, ToS32(k));
    var size, off := SizeBytes(code), LoadAt(code, k, t.regs[7]);
    var at1 := at + |LoadOffset(Mode(code) == BPF_IND, ToS32(k))|;
    n, t' := ChecksPart(prog, env, at, code, k, t);
    PacketOfLength(env);
    if off < TWO31 && off + size <= env.dataEnd - env.data {
      ProbedBytes(env, off, size);
      var m, u := ReadPart(prog, env, at1 + 9, code, t');
      Concat(prog, env, t, n, t', m);
      if Mapped(env, Plus(env.data, off), size) {
        ValueBound(true, KernelBytes(env, Plus(env.data, off), size));
      }
      n, t' := n + m, u;
    } else {
      FailPart(prog, env, at1 + 17, t');
      Concat(prog, env, t, n, t', 2);
      n := n + 2;
    }
  }

  lemma PacketLoadLength(code: Word16, imm: Int32)
    ensures |PacketLoad(code, imm)| == |LoadOffset(Mode(code) == BPF_IND, imm)| + 19 + |LoadValue(code)|
  {
  }

  lemma PacketOfLength(env: Env)
    ensures |PacketOf(env)| == if env.dataEnd < env.data then 0 else env.dataEnd - env.data
  {
  }
}
