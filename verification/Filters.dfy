/** Compiling an expression, preparing the two link types' filters, and calling them in the patched program. */
module Filters {
  import opened Words
  import opened Opcodes
  import opened Ebpf
  import opened Cbpf
  import opened Translation
  import opened Converter
  import opened EmittedBytes
  import opened Rules
  import opened PacketLoads
  import opened Frames
  import opened Simulation
  import opened Preservation
  import opened Labels
  import opened Termination

  /** libpcap's answer for an expression and a link type: an error, or a classic filter. */
  datatype Compiled = Compiled(err: int, filter: seq<SockFilter>)
  type Pcap = (string, bool) -> Compiled

  method MakeConstantFilter(condition: bool) returns (insns: seq<BpfInsn>)
    ensures insns == ConstantFilter(condition)
  {
    var len := new IntRef(0);
    var ret := GetInsnsForConstantFilter(if condition then 1 else 0, null, len);
    if ret != 0 {
      return [];
    }
    var buf := new BpfInsn[len.value](_ => ZERO_INSN);
    ret := GetInsnsForConstantFilter(if condition then 1 else 0, buf, len);
    if ret != 0 {
      return [];
    }
    insns := buf[..len.value];
  }

  /** Query the length, allocate, convert. The answer is libpcap's error, or -EINVAL if its filter cannot be
      converted, or the filter; the empty expression accepts everything without asking. */
  method CompileEbpfFilter(expression: string, l3: bool, pcap: Pcap) returns (err: int, insns: seq<BpfInsn>)
    ensures err == 0 <==>
      expression == "" || (pcap(expression, l3).err == 0 && Convertible(pcap(expression, l3).filter))
    ensures err != 0 ==>
      insns == [] && err == if pcap(expression, l3).err != 0 then pcap(expression, l3).err else -22
    ensures err == 0 ==>
      insns == if expression == "" then [BpfInsn(0xb7, 0, 0, 0, 1), BpfInsn(0x95, 0, 0, 0, 0)]
               else Output(pcap(expression, l3).filter)
  {
    hide Convertible, QueryOk, Output, Addr, HasRoom;
    if expression == "" {
      FixedBytes(true);
      insns := MakeConstantFilter(true);
      if insns == [] {
        return -EINVAL, [];
      }
      return 0, insns;
    }
    var cbpf := pcap(expression, l3);
    if cbpf.err != 0 {
      return cbpf.err, [];
    }
    ConvertibleExactly(cbpf.filter);
    var ebpfLen := new IntRef(0);
    err := BpfConvertFilter(cbpf.filter, null, ebpfLen);
    if err != 0 {
      return err, [];
    }
    var ebpf := new BpfInsn[ebpfLen.value](_ => ZERO_INSN);
    FullRoom(cbpf.filter);
    err := BpfConvertFilter(cbpf.filter, ebpf, ebpfLen);
    if err != 0 {
      return err, [];
    }
    insns := ebpf[..ebpfLen.value];
  }

  /** The filters the trace manager keeps for packets with and without a link-layer header. */
  class TraceFilters {
    var filterL2: seq<BpfInsn>
    var filterL3: seq<BpfInsn>

    constructor ()
      ensures filterL2 == [] && filterL3 == []
    {
      filterL2, filterL3 := [], [];
    }

    /** prepare_pcap_filters */
    method Prepare(expression: string, pcap: Pcap) returns (ret: int)
      modifies this
      ensures ret == 0 <==>
        expression == "" ||
        (pcap(expression, false).err == 0 && Convertible(pcap(expression, false).filter)) ||
        (pcap(expression, true).err == 0 && Convertible(pcap(expression, true).filter))
      ensures ret != 0 ==>
        ret == (if pcap(expression, false).err != 0 then pcap(expression, false).err else -22) &&
        filterL2 == old(filterL2) && filterL3 == old(filterL3)
      ensures ret == 0 ==>
        filterL2 == PreparedFilter(expression, false, pcap) && filterL3 == PreparedFilter(expression, true, pcap)
      ensures var rejecting := [BpfInsn(0xb7, 0, 0, 0, 0), BpfInsn(0x95, 0, 0, 0, 0)];
        ret == 0 && expression != "" ==>
          (pcap(expression, false).err != 0 || !Convertible(pcap(expression, false).filter) ==> filterL2 == rejecting) &&
          (pcap(expression, true).err != 0 || !Convertible(pcap(expression, true).filter) ==> filterL3 == rejecting)
    {
      hide Convertible, Output;
      FixedBytes(true);
      FixedBytes(false);
      var l2Ret, l2Insns := CompileEbpfFilter(expression, false, pcap);
      var l3Ret, l3Insns := CompileEbpfFilter(expression, true, pcap);
      if l2Ret != 0 && l3Ret != 0 {
        return l2Ret;
      }
      if l2Ret != 0 {
        l2Insns := MakeConstantFilter(false);
      }
      if l3Ret != 0 {
        l3Insns := MakeConstantFilter(false);
      }
      filterL2, filterL3 := l2Insns, l3Insns;
      ret := 0;
    }
  }

  /** A link type the expression does not compile for gets the filter that rejects everything. */
  function PreparedFilter(expression: string, l3: bool, pcap: Pcap): seq<BpfInsn> {
    var cbpf := pcap(expression, l3);
    if expression == "" then ConstantFilter(true)
    else if cbpf.err == 0 && Convertible(cbpf.filter) then Output(cbpf.filter)
    else ConstantFilter(false)
  }

  // ----- what the prepared filters decide -----

  lemma ConstantFilterRuns(code: seq<BpfInsn>, env: Env, base: int, accept: bool, t: State)
    requires CodeAt(code, base, ConstantFilter(accept)) && t.pc == base
    ensures Run(code, env, t, 2) == Exited(if accept then 1 else 0)
  {
    hide Exec, At;
    Fetch(code, base, ConstantFilter(accept));
    Begin(code, env, t);
    var t1 := DoMov64Imm(code, env, t, 0, t, 0, if accept then 1 else 0);
    DoExit(code, env, t, 1, t1);
  }

  /** libpcap's own promises about a classic filter it returns. */
  predicate WellFormed(prog: seq<SockFilter>) { Legal(prog) && EndsInRet(prog) }

  /** What a packet's verdict for this expression and link type is meant to be. */
  ghost predicate Meant(expression: string, l3: bool, pcap: Pcap, env: Env, t: State, r: Word64) {
    var cbpf := pcap(expression, l3);
    if expression == "" then r == 1
    else if cbpf.err != 0 || !Convertible(cbpf.filter) then r == 0
    else ClassicVerdict(cbpf.filter, env, t, r)
  }

  /** A prepared filter, wherever it is placed, exits with exactly the meant verdict: everything for the empty
      expression, nothing where the expression does not compile, the classic filter's answer otherwise. */
  lemma PreparedFilterDecides(expression: string, l3: bool, pcap: Pcap, code: seq<BpfInsn>, env: Env, base: int, t: State,
                              r: Word64)
    requires pcap(expression, l3).err == 0 ==> WellFormed(pcap(expression, l3).filter)
    requires CodeAt(code, base, PreparedFilter(expression, l3, pcap)) && Entered(env, base, t)
    ensures Exits(code, env, t, r) <==> Meant(expression, l3, pcap, env, t, r)
  {
    hide Exec, Iter, Output, CodeAt, Convertible, ClassicVerdict, Legal, EndsInRet, ConstantFilter;
    var cbpf := pcap(expression, l3);
    if expression == "" {
      ConstantFilterRuns(code, env, base, true, t);
      OnlyExit(code, env, t, 2, 1, r);
    } else if cbpf.err != 0 || !Convertible(cbpf.filter) {
      ConstantFilterRuns(code, env, base, false, t);
      OnlyExit(code, env, t, 2, 0, r);
    } else {
      SemanticPreservation(code, env, base, cbpf.filter, t, r);
    }
  }

  /** With forward jumps only, it does so within as many steps as it has instructions. */
  lemma PreparedFilterReturns(expression: string, l3: bool, pcap: Pcap, code: seq<BpfInsn>, env: Env, base: int,
                              t: State)
    requires var cbpf := pcap(expression, l3); cbpf.err == 0 ==> WellFormed(cbpf.filter) && ForwardOnly(cbpf.filter)
    requires CodeAt(code, base, PreparedFilter(expression, l3, pcap)) && Entered(env, base, t)
    ensures var c := Run(code, env, t, |PreparedFilter(expression, l3, pcap)|);
      c.Exited? && Meant(expression, l3, pcap, env, t, c.r0)
  {
    hide Run, Output, CodeAt, Convertible, Legal, EndsInRet, ForwardOnly, RunC;
    var cbpf := pcap(expression, l3);
    if expression == "" {
      ConstantFilterRuns(code, env, base, true, t);
    } else if cbpf.err != 0 || !Convertible(cbpf.filter) {
      ConstantFilterRuns(code, env, base, false, t);
    } else {
      TotalCorrectness(code, env, base, cbpf.filter, t);
      var v := RunC(cbpf.filter, PacketOf(env), ScratchOf(env.bigEndian, t.frame), |cbpf.filter|).value;
      assert ClassicReturns(cbpf.filter, env, t, v);
    }
  }

  lemma OnlyExit(code: seq<BpfInsn>, env: Env, t: State, n: nat, v: Word64, r: Word64)
    requires Run(code, env, t, n) == Exited(v)
    ensures Exits(code, env, t, r) <==> r == v
  {
    hide Exec, Iter;
    if m: nat :| Run(code, env, t, m) == Exited(r) {
      Stopped(code, env, Running(t), if m <= n then m else n, if m <= n then n else m);
    }
  }
}
