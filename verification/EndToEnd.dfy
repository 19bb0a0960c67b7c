/** From the expression to the patched kernel program: every call that reached a stub reaches the prepared filter. */
module EndToEnd {
  import opened Words
  import opened Opcodes
  import opened Ebpf
  import opened Cbpf
  import opened Translation
  import opened Rules
  import opened Simulation
  import opened Preservation
  import opened Splicer
  import opened Injection
  import opened EmittedBytes
  import opened Filters

  /** A prepared filter can be injected: it is not empty, not huge, and calls no subprogram. */
  lemma PreparedIsInjectable(expression: string, l3: bool, pcap: Pcap)
    ensures var f := PreparedFilter(expression, l3, pcap);
      2 <= |f| <= 5 + 27 * 4096 && NoSubprogCalls(f)
  {
    hide Convertible, CallsSubprog, Listed;
    var f := PreparedFilter(expression, l3, pcap);
    var prog := pcap(expression, l3).filter;
    if expression != "" && pcap(expression, l3).err == 0 && Convertible(prog) {
      OutputIsListed(prog);
      NotTooLong(prog);
    } else {
      ConstantIsListed(true);
      ConstantIsListed(false);
    }
    forall p | 0 <= p < |f| ensures !CallsSubprog(f[p]) {
      assert Listed(f[p]);
      ListedIsNoCall(f[p]);
    }
  }

  lemma ListedIsNoCall(insn: BpfInsn)
    requires Listed(insn)
    ensures !CallsSubprog(insn)
  {
  }

  lemma NotTooLong(prog: seq<SockFilter>)
    requires Convertible(prog)
    ensures 5 <= OutLen(prog) <= 5 + 27 * BPF_MAXINSNS
  {
  }

  // ----- the patched program -----

  const MAX_FILTER := 5 + 27 * BPF_MAXINSNS

  /** What the splicer needs of the loaded program and its function information: stubs in ascending order inside
      the program, calls that fit, and room for the filters below 2^31 instructions. */
  predicate Host(code: seq<BpfInsn>, infos: seq<FuncInfo>) {
    var stubs := StubsOf(infos, [], []);
    Ascending(stubs) && Within(stubs, |code|) && CallsFit(code, stubs) && |code| + |infos| * MAX_FILTER < TWO31
  }

  /** Stub positions do not depend on the filters. */
  lemma {:induction false} SamePositions(infos: seq<FuncInfo>, l2: seq<BpfInsn>, l3: seq<BpfInsn>)
    ensures var a, b := StubsOf(infos, [], []), StubsOf(infos, l2, l3);
      |a| == |b| <= |infos| && forall k | 0 <= k < |a| :: a[k].pos == b[k].pos
    decreases |infos|
  {
    if infos != [] {
      SamePositions(infos[..|infos| - 1], l2, l3);
    }
  }

  lemma {:induction false} StubsCarry(infos: seq<FuncInfo>, l2: seq<BpfInsn>, l3: seq<BpfInsn>)
    ensures forall k | 0 <= k < |StubsOf(infos, l2, l3)| ::
      StubsOf(infos, l2, l3)[k].filter == l2 || StubsOf(infos, l2, l3)[k].filter == l3
    decreases |infos|
  {
    if infos != [] {
      StubsCarry(infos[..|infos| - 1], l2, l3);
    }
  }

  lemma {:induction false} TotalSize(stubs: seq<Stub>)
    requires forall k | 0 <= k < |stubs| :: |stubs[k].filter| <= MAX_FILTER
    ensures FilterSize(stubs) <= |stubs| * MAX_FILTER
    decreases |stubs|
  {
    if stubs != [] {
      TotalSize(DropLast(stubs));
    }
  }

  /** A stub record has its stub, with the filter its name asks for. */
  lemma {:induction false} StubOfRecord(infos: seq<FuncInfo>, l2: seq<BpfInsn>, l3: seq<BpfInsn>, x: nat) returns (k: nat)
    requires x < |infos| && IsStub(infos[x])
    ensures k < |StubsOf(infos, l2, l3)|
    ensures StubsOf(infos, l2, l3)[k] == Stub(infos[x].insnOff, if IsL3(infos[x]) then l3 else l2)
    decreases |infos|
  {
    if x == |infos| - 1 {
      k := |StubsOf(infos, l2, l3)| - 1;
    } else {
      k := StubOfRecord(infos[..|infos| - 1], l2, l3, x);
    }
  }

  function PreparedStubs(infos: seq<FuncInfo>, expression: string, pcap: Pcap): seq<Stub> {
    StubsOf(infos, PreparedFilter(expression, false, pcap), PreparedFilter(expression, true, pcap))
  }

  lemma PreparedSuit(code: seq<BpfInsn>, infos: seq<FuncInfo>, expression: string, pcap: Pcap)
    requires Host(code, infos)
    ensures Suitable(code, PreparedStubs(infos, expression, pcap))
    ensures Ascending(PreparedStubs(infos, expression, pcap)) && Within(PreparedStubs(infos, expression, pcap), |code|)
  {
    hide PreparedFilter, StubsOf, NoSubprogCalls, CallsSubprog;
    var l2, l3 := PreparedFilter(expression, false, pcap), PreparedFilter(expression, true, pcap);
    var before, stubs := StubsOf(infos, [], []), StubsOf(infos, l2, l3);
    PreparedIsInjectable(expression, false, pcap);
    PreparedIsInjectable(expression, true, pcap);
    SamePositions(infos, l2, l3);
    StubsCarry(infos, l2, l3);
    TotalSize(stubs);
    SizeProduct(|stubs|, |infos|);
    forall j | 0 <= j < |code| && Kept(stubs, j) && CallsSubprog(code[j])
      ensures 0 < CallTarget(code, j) <= |code| && !InsideSome(stubs, CallTarget(code, j))
    {
      SameKept(before, stubs, j);
      SameInside(before, stubs, CallTarget(code, j));
    }
  }

  lemma SizeProduct(a: nat, b: nat)
    requires a <= b
    ensures a * MAX_FILTER <= b * MAX_FILTER
  {
  }

  lemma SameKept(a: seq<Stub>, b: seq<Stub>, j: int)
    requires |a| == |b| && (forall k | 0 <= k < |a| :: a[k].pos == b[k].pos) && Kept(b, j)
    ensures Kept(a, j)
  {
    forall k | 0 <= k < |a| ensures Outside(a[k].pos, STUB_ORIG_LEN, j) {
      assert Outside(b[k].pos, STUB_ORIG_LEN, j);
    }
  }

  lemma SameInside(a: seq<Stub>, b: seq<Stub>, j: int)
    requires |a| == |b| && (forall k | 0 <= k < |a| :: a[k].pos == b[k].pos) && !InsideSome(a, j)
    ensures !InsideSome(b, j)
  {
  }

  lemma InjectAllOf(code: seq<BpfInsn>, stubs: seq<Stub>) returns (r: seq<BpfInsn>)
    requires Suitable(code, stubs)
    ensures Ascending(stubs) && Within(stubs, |code|) && r == InjectAll(code, stubs) && Simultaneous(code, stubs, r)
  {
    SequentialIsSimultaneous(code, stubs);
    r := InjectAll(code, stubs);
  }

  /** The loaded program with every stub replaced by the prepared filter its name asks for. */
  function Patched(code: seq<BpfInsn>, infos: seq<FuncInfo>, expression: string, pcap: Pcap): seq<BpfInsn>
    requires Host(code, infos)
  {
    PreparedSuit(code, infos, expression, pcap);
    InjectAll(code, PreparedStubs(infos, expression, pcap))
  }

  /** Prepare both filters, then load: fails exactly when the expression compiles for neither link type, and
      otherwise leaves the patched program. */
  method PrepareAndLoad(filters: TraceFilters, expression: string, pcap: Pcap, prog: BpfProgram, opts: LoadOpts)
    returns (ret: int)
    requires Host(prog.insns, opts.funcInfo)
    modifies filters, prog, opts
    ensures ret == 0 <==>
      expression == "" ||
      (pcap(expression, false).err == 0 && Convertible(pcap(expression, false).filter)) ||
      (pcap(expression, true).err == 0 && Convertible(pcap(expression, true).filter))
    ensures ret != 0 ==> ret == if pcap(expression, false).err != 0 then pcap(expression, false).err else -22
    ensures prog.insns ==
      if ret == 0 then Patched(old(prog.insns), old(opts.funcInfo), expression, pcap) else old(prog.insns)
  {
    hide InjectAll, StubsOf, Convertible, PreparedFilter;
    ghost var code, infos := prog.insns, opts.funcInfo;
    PreparedSuit(code, infos, expression, pcap);
    PreparedIsInjectable(expression, false, pcap);
    PreparedIsInjectable(expression, true, pcap);
    ret := filters.Prepare(expression, pcap);
    if ret != 0 {
      return;
    }
    ret := CustomPrepareLoad(prog, opts, filters.filterL2, filters.filterL3);
  }

  /** A record named "filter_pcap_ebpf_l..." is a stub, for the L3 filter exactly if a 3 comes next. */
  lemma NamedStub(info: FuncInfo, rest: string)
    requires info.func == Named("filter_pcap_ebpf_l" + rest)
    ensures IsStub(info) && (IsL3(info) <==> "3" <= rest)
  {
    hide NamesStub, NamesL3;
    NameDecides(rest);
  }

  /** In the patched program a call that used to reach a stub is still a subprogram call, and its new target is the
      prepared filter for the stub's link type, which its name decides. */
  lemma PatchedCallReaches(
    code: seq<BpfInsn>, infos: seq<FuncInfo>, expression: string, pcap: Pcap, x: nat, rest: string, j: nat)
    requires Host(code, infos) && x < |infos| && infos[x].func == Named("filter_pcap_ebpf_l" + rest)
    requires j < |code| && Kept(StubsOf(infos, [], []), j) && code[j] == BpfInsn(0x85, 0, 1, 0, code[j].imm)
    requires j + 1 + code[j].imm == infos[x].insnOff
    ensures var patched := Patched(code, infos, expression, pcap);
      var m := Image(PreparedStubs(infos, expression, pcap), j);
      0 <= m < |patched| && patched[m] == BpfInsn(0x85, 0, 1, 0, patched[m].imm) &&
      CodeAt(patched, m + 1 + patched[m].imm, PreparedFilter(expression, "3" <= rest, pcap))
  {
    hide PreparedFilter, StubsOf, InjectAll, Image, Shift, Suitable, Host, CodeAt, IsStub, NamesL3;
    NamedStub(infos[x], rest);
    var l2, l3 := PreparedFilter(expression, false, pcap), PreparedFilter(expression, true, pcap);
    var stubs := PreparedStubs(infos, expression, pcap);
    PreparedSuit(code, infos, expression, pcap);
    SamePositions(infos, l2, l3);
    SameKept(stubs, StubsOf(infos, [], []), j);
    var patched := InjectAllOf(code, stubs);
    var k := StubOfRecord(infos, l2, l3, x);
    assert KeptAt(code, stubs, patched, j);
    assert CodeAt(patched, Image(stubs, stubs[k].pos), stubs[k].filter);
  }

  /** End to end. Whatever packet, frame and registers such a call enters its new target with, that subprogram exits
      with exactly the verdict the expression means for the stub's link type. */
  lemma PatchedCallDecides(
    code: seq<BpfInsn>, infos: seq<FuncInfo>, expression: string, pcap: Pcap,
    x: nat, rest: string, j: nat, env: Env, t: State, r: Word64)
    requires Host(code, infos) && x < |infos| && infos[x].func == Named("filter_pcap_ebpf_l" + rest)
    requires pcap(expression, "3" <= rest).err == 0 ==> WellFormed(pcap(expression, "3" <= rest).filter)
    requires j < |code| && Kept(StubsOf(infos, [], []), j) && code[j] == BpfInsn(0x85, 0, 1, 0, code[j].imm)
    requires j + 1 + code[j].imm == infos[x].insnOff
    ensures var patched := Patched(code, infos, expression, pcap);
      var m := Image(PreparedStubs(infos, expression, pcap), j);
      0 <= m < |patched| && patched[m] == BpfInsn(0x85, 0, 1, 0, patched[m].imm) &&
      (Entered(env, m + 1 + patched[m].imm, t) ==>
        (Exits(patched, env, t, r) <==> Meant(expression, "3" <= rest, pcap, env, t, r)))
  {
    hide PreparedFilter, StubsOf, Image, Exits, Meant, Host, WellFormed, Entered, CodeAt, Patched;
    PatchedCallReaches(code, infos, expression, pcap, x, rest, j);
    var patched := Patched(code, infos, expression, pcap);
    var m := Image(PreparedStubs(infos, expression, pcap), j);
    var target := m + 1 + patched[m].imm;
    if Entered(env, target, t) {
      PreparedFilterDecides(expression, "3" <= rest, pcap, patched, env, target, t, r);
    }
  }

  /** The two stubs of the kernel program: the one for packets without a link-layer header decides by the L3 meaning
      of the expression, the other by the L2 meaning. */
  lemma KernelStubDecides(
    code: seq<BpfInsn>, infos: seq<FuncInfo>, expression: string, pcap: Pcap,
    x: nat, l3: bool, j: nat, env: Env, t: State, r: Word64)
    requires Host(code, infos) && x < |infos|
    requires infos[x].func == Named(if l3 then "filter_pcap_ebpf_l3" else "filter_pcap_ebpf_l2")
    requires pcap(expression, l3).err == 0 ==> WellFormed(pcap(expression, l3).filter)
    requires j < |code| && Kept(StubsOf(infos, [], []), j) && code[j] == BpfInsn(0x85, 0, 1, 0, code[j].imm)
    requires j + 1 + code[j].imm == infos[x].insnOff
    ensures var patched := Patched(code, infos, expression, pcap);
      var m := Image(PreparedStubs(infos, expression, pcap), j);
      0 <= m < |patched| && patched[m] == BpfInsn(0x85, 0, 1, 0, patched[m].imm) &&
      (Entered(env, m + 1 + patched[m].imm, t) ==>
        (Exits(patched, env, t, r) <==> Meant(expression, l3, pcap, env, t, r)))
  {
    hide PreparedStubs, StubsOf, Image, Exits, Meant, Host, WellFormed, Entered, Patched;
    KernelNames();
    PatchedCallDecides(code, infos, expression, pcap, x, if l3 then "3" else "2", j, env, t, r);
  }

  lemma KernelNames()
    ensures "filter_pcap_ebpf_l" + "3" == "filter_pcap_ebpf_l3" && "filter_pcap_ebpf_l" + "2" == "filter_pcap_ebpf_l2"
    ensures !("3" <= "2")
  {
    assert "3"[0] != "2"[0];
  }

  /** End to end, with forward jumps only: the call returns that verdict within as many steps as the prepared filter
      has instructions. */
  lemma PatchedCallReturns(
    code: seq<BpfInsn>, infos: seq<FuncInfo>, expression: string, pcap: Pcap, x: nat, rest: string, j: nat, env: Env,
    t: State)
    requires Host(code, infos) && x < |infos| && infos[x].func == Named("filter_pcap_ebpf_l" + rest)
    requires var cbpf := pcap(expression, "3" <= rest);
      cbpf.err == 0 ==> WellFormed(cbpf.filter) && ForwardOnly(cbpf.filter)
    requires j < |code| && Kept(StubsOf(infos, [], []), j) && code[j] == BpfInsn(0x85, 0, 1, 0, code[j].imm)
    requires j + 1 + code[j].imm == infos[x].insnOff
    ensures var patched := Patched(code, infos, expression, pcap);
      var m := Image(PreparedStubs(infos, expression, pcap), j);
      0 <= m < |patched| &&
      (Entered(env, m + 1 + patched[m].imm, t) ==>
        var c := Run(patched, env, t, |PreparedFilter(expression, "3" <= rest, pcap)|);
        c.Exited? && Meant(expression, "3" <= rest, pcap, env, t, c.r0))
  {
    hide PreparedFilter, StubsOf, Image, Run, Meant, Host, WellFormed, ForwardOnly, Entered, CodeAt, Patched;
    PatchedCallReaches(code, infos, expression, pcap, x, rest, j);
    var patched := Patched(code, infos, expression, pcap);
    var m := Image(PreparedStubs(infos, expression, pcap), j);
    var target := m + 1 + patched[m].imm;
    if Entered(env, target, t) {
      PreparedFilterReturns(expression, "3" <= rest, pcap, patched, env, target, t);
    }
  }

  // ----- one program, in full -----

  /** Twelve instructions: a call to the stub at 2, a call over it to 10, the stub, and behind it a call back to it. */
  function SmallHost(): seq<BpfInsn> {
    [BpfInsn(0x85, 0, 1, 0, 1), BpfInsn(0x85, 0, 1, 0, 8), BpfInsn(0xb7, 0, 0, 0, 0), BpfInsn(0xb7, 0, 0, 0, 0),
     BpfInsn(0xb7, 0, 0, 0, 0), BpfInsn(0xb7, 0, 0, 0, 0), BpfInsn(0xb7, 0, 0, 0, 0), BpfInsn(0xb7, 0, 0, 0, 0),
     BpfInsn(0x95, 0, 0, 0, 0), BpfInsn(0x95, 0, 0, 0, 0), BpfInsn(0x85, 0, 1, 0, -9), BpfInsn(0x95, 0, 0, 0, 0)]
  }

  lemma SmallHostFits(infos: seq<FuncInfo>)
    requires infos == [FuncInfo(2, Named("filter_pcap_ebpf_l3"))] && StubsOf(infos, [], []) == [Stub(2, [])]
    ensures Host(SmallHost(), infos)
  {
    hide StubsOf;
  }

  lemma SmallHostInjected(accept: seq<BpfInsn>)
    requires accept == [BpfInsn(0xb7, 0, 0, 0, 1), BpfInsn(0x95, 0, 0, 0, 0)]
    ensures Inject(SmallHost(), 2, 7, accept) ==
      [BpfInsn(0x85, 0, 1, 0, 1), BpfInsn(0x85, 0, 1, 0, 3), BpfInsn(0xb7, 0, 0, 0, 1), BpfInsn(0x95, 0, 0, 0, 0),
       BpfInsn(0x95, 0, 0, 0, 0), BpfInsn(0x85, 0, 1, 0, -4), BpfInsn(0x95, 0, 0, 0, 0)]
  {
    hide Inject, ToS32;
    var code := SmallHost();
    InjectKeepsTheRest(code, 2, 7, accept, 0);
    Fetch(Inject(code, 2, 7, accept), 2, accept);
    CallFieldExactly(code, 2, 7, accept, 0);
    CallFieldExactly(code, 2, 7, accept, 1);
    CallFieldExactly(code, 2, 7, accept, 9);
    CallFieldExactly(code, 2, 7, accept, 10);
    CallFieldExactly(code, 2, 7, accept, 11);
    S32Same(1);
    S32Same(3);
    S32Same(-4);
  }

  /** Its L3 stub replaced for the empty expression: all three calls follow. */
  lemma SmallHostPatched(pcap: Pcap)
    ensures var infos := [FuncInfo(2, Named("filter_pcap_ebpf_l3"))];
      Host(SmallHost(), infos) && Patched(SmallHost(), infos, "", pcap) ==
        [BpfInsn(0x85, 0, 1, 0, 1), BpfInsn(0x85, 0, 1, 0, 3), BpfInsn(0xb7, 0, 0, 0, 1), BpfInsn(0x95, 0, 0, 0, 0),
         BpfInsn(0x95, 0, 0, 0, 0), BpfInsn(0x85, 0, 1, 0, -4), BpfInsn(0x95, 0, 0, 0, 0)]
  {
    hide NamesStub, NamesL3, Inject;
    var infos := [FuncInfo(2, Named("filter_pcap_ebpf_l3"))];
    var accept := [BpfInsn(0xb7, 0, 0, 0, 1), BpfInsn(0x95, 0, 0, 0, 0)];
    KernelNames();
    StubByName(2, "3", [], []);
    StubByName(2, "3", accept, accept);
    FixedBytes(true);
    SmallHostFits(infos);
    var stubs := PreparedStubs(infos, "", pcap);
    assert stubs == [Stub(2, accept)] && DropLast(stubs) == [];
    assert InjectAll(SmallHost(), stubs) == Inject(SmallHost(), 2, 7, accept);
    SmallHostInjected(accept);
  }
}
