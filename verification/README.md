# Verified model of the skbtracer filter compiler

skbtracer lets a user trace kernel packets that match a pcap expression. libpcap turns the expression into a
classic BPF filter; `src/pcap2bpf/bpf_convert.c` converts that to eBPF; `src/pcap2bpf/pcap2bpf.cpp` splices the
result over a stub function in an already compiled kernel program; `src/trace/trace.cpp` does this for every stub
while the program is loaded. This project models those three steps in Dafny and proves that a call which used to
reach a stub afterwards decides as the classic filter does.

`dafny verify dfyconfig.toml` checks everything.

## How the model is laid out

| file | contents |
|---|---|
| `Words`, `Opcodes`, `Alu` | C integer conversions, bit operators, byte encodings, opcode fields, eBPF arithmetic |
| `Ebpf` | the target machine: eleven 64-bit registers, a 512-byte frame, `probe_read_kernel` |
| `Cbpf` | the source machine: pc, A, X, M[16] and a packet |
| `Macros`, `Translation` | what is emitted: one block per classic instruction, the address table, the layout |
| `Rules`, `PacketLoads`, `Frames`, `Blocks` | one lemma per emitted instruction kind, per part of a packet load, per frame slot, per block |
| `Simulation`, `Preservation`, `Labels`, `Relocation`, `Termination` | the theorems about whole runs |
| `ClassicTable`, `EmittedBytes`, `TargetTable` | both instruction sets and every emitted block in plain numbers, proved to be what the opcode names above add up to |
| `Converter` | `bpf_convert.c` as it runs, on arrays, with backpatching and repeated passes |
| `Interpreter` | the interpreter of `tests/test_pcap2bpf.cpp` as it runs |
| `Splicer`, `Injection` | the splice with its call relocation, and the loop with its running offset |
| `Filters`, `EndToEnd` | the two link types' filters, and calls in the patched program |

The imperative methods are proved equal to the functions of `Translation`, `Ebpf`, `Splicer` and `Filters`; the
theorems are about those functions.

## Modelling decisions

- The host's byte order is a parameter. Frame contents are bytes; loads and stores encode and decode them.
- eBPF arithmetic, byte order, jumps, loads and stores follow sections 4.1, 4.2, 4.3 and 5.1 of RFC 9669. The
  interpreter in the tests has no MUL, DIV, MOD or NEG, always swaps in a byte-order conversion, and keeps R1..R5
  over a helper call; the model adds the first, swaps only where the host is little-endian, and leaves arbitrary
  values in R1..R5.
- Classic arithmetic (`Cbpf.Arith`) is defined on its own and proved to agree. Shift counts count modulo 32. A
  division by X = 0 and a failed load return 0.
- A classic load fails at offsets from 2^31 up, outside the packet, and where a byte of it cannot be read.
  `data_end` below `data` is an empty packet. A failing probe read zero-fills its buffer and returns -EFAULT.
- The classic filter starts with whatever its scratch words happen to hold in the frame, so no filter has to write
  a word before it reads it.
- A JA displacement is added in 32-bit arithmetic, so a huge one jumps backward. The simulation covers that, and a
  filter that loops forever stays one; only the termination results ask for forward jumps.
- `Cbpf.Legal` is the part of a filter's validity that the converter does not check: scratch indices below 16 and
  nonzero constant divisors. `EndsInRet` is asked for only where falling off the end would run into other code.
- `calloc`, `new` and `bpf_program__set_insns` succeed.

- Opcode names and instruction macros are abbreviations only. `ClassicTable` says what each classic opcode
  number does and which 47 of them the converter accepts, `EmittedBytes` writes out the block of every opcode, and
  `TargetTable` says what each emitted opcode number does. The numbers are those of `linux/bpf_common.h`, which is not
  part of this model, and of RFC 9669.

## Results that differ from what one might expect

- The first emitting pass reads zeroed table entries for forward targets, so a forward jump at a position beyond
  32767 is rejected even if its final offset would fit. `Labels.ConvertibleExactly` says exactly which filters
  convert; up to 1213 instructions, or up to 32768 emitted ones, always do once the length query has succeeded.
  `Labels.LateJumpRejected` is a legal filter of 1302 instructions that is rejected for this reason alone.
- `inject_ebpf_filter` tests `i + imm` as an unsigned number, one below the call's target. A call to instruction 0
  wraps around and is sent elsewhere, and a range of at most one instruction misses calls to the instruction behind
  it. `Splicer.CallRelocatedExactly` says exactly when a call keeps its target; `Splicer.CallToEntryBreaks` and
  `Splicer.ShortRangeMissesCall` are instances of the two cases that do not.
- Ordinary jumps are never adjusted: `Splicer.JumpKeptExactly` for one injection and `Injection.JumpKeptThroughAll`
  for the whole loop; `Splicer.CrossingJumpBreaks` is an instance that goes wrong.
- When a stub does not lie inside the program, the stubs before it stay replaced: `Injection.CustomPrepareLoad`.

## Model

| member | source | states |
|---|---|---|
| Words.LoadThenFromBE | src/pcap2bpf/bpf_convert.c:155-161 | a host-order load of 1 to n bytes followed by the conversion from big-endian order is the big-endian value, on either byte order |
| Words.BigEndianSum | src/pcap2bpf/bpf_convert.c:155-161 | the big-endian value of two or four bytes is 256 a + b, and so on, the first byte weighing most |
| Words.LittleEndianSum | tests/test_pcap2bpf.cpp:195-203 | a little-endian host's load weighs the first byte least |
| Words.DecodeEncode | src/pcap2bpf/bpf_convert.c:350-365 | what a host stores in n bytes it loads back |
| Words.BitwiseAnd | tests/test_pcap2bpf.cpp:114 | AND on numbers works bit by bit |
| Words.BitwiseOr | tests/test_pcap2bpf.cpp:115 | OR on numbers works bit by bit |
| Words.BitwiseXor | tests/test_pcap2bpf.cpp:116 | XOR on numbers works bit by bit |
| PacketLoads.AbsOffset | src/pcap2bpf/bpf_convert.c:112-114 | an absolute load's offset reaches R2 as the unsigned constant |
| PacketLoads.IndOffset | src/pcap2bpf/bpf_convert.c:105-111 | R2 is X + k over the integers, and a sum that does not fit 32 bits goes to the failure epilogue |
| PacketLoads.EndPart | src/pcap2bpf/bpf_convert.c:116-124 | offsets from 2^31 up fail, others give the end offset without wrapping |
| PacketLoads.BoundsPart | src/pcap2bpf/bpf_convert.c:126-133 | passes exactly when the end offset is at most data_end - data over the integers |
| PacketLoads.ProbePart | src/pcap2bpf/bpf_convert.c:135-146 | the probe read fills the buffer with the bytes at data + offset, or the run reaches the failure epilogue |
| PacketLoads.FailPart | src/pcap2bpf/bpf_convert.c:93-97 | the epilogue exits with 0 |
| PacketLoads.ValuePart | src/pcap2bpf/bpf_convert.c:155-161 | A becomes the big-endian value of the buffered bytes, X and the frame stay |
| PacketLoads.ProbedBytes | src/pcap2bpf/bpf_convert.c:138-141 | the probe read succeeds exactly where the packet bytes are readable, and delivers those bytes |
| PacketLoads.PacketLoadIsExact | src/pcap2bpf/bpf_convert.c:99-162 | the emitted load continues with the classic load's value, X and all of the frame but the buffer unchanged, or exits with 0 exactly where the classic load fails |
| Frames.ScratchOffset | src/pcap2bpf/bpf_convert.c:352-355 | the truncated 16-bit offset addresses slot 4k+64 below the frame top for k below 16 |
| Frames.BufferIsSeparate | src/pcap2bpf/bpf_convert.c:136-141 | filling the load buffer changes neither the saved bounds nor any scratch word |
| Frames.ScratchStore | src/pcap2bpf/bpf_convert.c:350-356 | a scratch store changes that word only, and the saved bounds stay |
| Frames.BoundsSaved | src/pcap2bpf/bpf_convert.c:190-192 | the prologue's stores save both bounds without touching scratch words |
| Blocks.ArithmeticAgrees | src/pcap2bpf/bpf_convert.c:211-238 | each copied arithmetic opcode, as a truncated machine operation, is the classic 32-bit operation |
| Blocks.DivisionGuard | src/pcap2bpf/bpf_convert.c:232-237 | division by X exits with 0 exactly when X is 0 |
| Blocks.AluBlockRuns | src/pcap2bpf/bpf_convert.c:211-239 | an arithmetic block does the classic step |
| Blocks.LoadBlockRuns | src/pcap2bpf/bpf_convert.c:241-249 | a packet load block does the classic step |
| Blocks.MshBlockRuns | src/pcap2bpf/bpf_convert.c:326-335 | X becomes 4*(P[k] & 0xf) and A survives the load and the helper call, or the filter exits with 0 |
| Blocks.RetBlockRuns | src/pcap2bpf/bpf_convert.c:337-348 | RET exits with 1 for a nonzero value and 0 for zero |
| Blocks.StoreRuns | src/pcap2bpf/bpf_convert.c:350-356 | ST and STX do the classic step |
| Blocks.RegMoveRuns | src/pcap2bpf/bpf_convert.c:358-378 | scratch and immediate loads, TAX and TXA do the classic step |
| Blocks.ConditionsAgree | src/pcap2bpf/bpf_convert.c:297-310 | the 64-bit comparison decides as the classic one, and the inverted opcode as its negation |
| Blocks.CondPrefixRuns | src/pcap2bpf/bpf_convert.c:278-288 | a constant with its sign bit set is in R2 as the unsigned constant |
| Blocks.CondJumpsRun | src/pcap2bpf/bpf_convert.c:290-324 | in all three shapes the classic condition decides which way out is taken |
| Translation.BlockHasItsLength | src/pcap2bpf/bpf_convert.c:384-388 | a block's size, 1 to 27 for a known opcode, depends on the instruction alone |
| ClassicTable.StepByNumber | src/pcap2bpf/bpf_convert.c:210-382 | what the classic machine does on each opcode number, loads as explicit sums of packet bytes, unknown opcodes included |
| ClassicTable.SupportedNumbers | src/pcap2bpf/bpf_convert.c:210-382 | the converter knows exactly the 47 case labels of its switch |
| ClassicTable.JaTargetByNumber | src/pcap2bpf/bpf_convert.c:264-268 | the 32-bit JA target is i + 1 plus the signed displacement exactly where that lies inside the program |
| ClassicTable.QueryByNumber | src/pcap2bpf/bpf_convert.c:173-262 | the length query succeeds exactly on 1 to 4096 known opcodes whose used targets are inside |
| ClassicTable.LegalByNumber | src/pcap2bpf/bpf_convert.c:225-230 | legal, forward and RET-terminated filters, by opcode number |
| EmittedBytes.BlockBytes | src/pcap2bpf/bpf_convert.c:203-384 | the block of every opcode, byte by byte: registers, offsets and immediates |
| EmittedBytes.FixedBytes | src/pcap2bpf/bpf_convert.c:70-73 | the bytes of the constant filters and of the prologue |
| EmittedBytes.OutputIsListed | src/pcap2bpf/bpf_convert.c:164-412 | a converted filter consists of instructions of the target table, and calls nothing but helper 113 |
| TargetTable.StepByNumber | tests/test_pcap2bpf.cpp:95-216 | what the target machine does on each opcode number that occurs, with byte order, frame and helper spelled out |
| TargetTable.JumpsByNumber | tests/test_pcap2bpf.cpp:149-176 | which opcode numbers are jumps |
| Translation.Addr | src/pcap2bpf/bpf_convert.c:189-207 | block addresses lie between 5 and 5 + 27 per earlier instruction |
| Simulation.LabelResolved | src/pcap2bpf/bpf_convert.c:251-262 | an accepted offset leads from its position to the target's block |
| Simulation.JaTargetIsSigned | src/pcap2bpf/bpf_convert.c:264-268 | an accepted JA target is the displacement read as a signed number |
| Simulation.CondLands | src/pcap2bpf/bpf_convert.c:290-324 | both ways out of a conditional block lead to the block of their classic target, second jump included |
| Simulation.PrologueRuns | src/pcap2bpf/bpf_convert.c:189-197 | after the prologue the filter corresponds to the classic start state |
| Simulation.StepSimulated | src/pcap2bpf/bpf_convert.c:202-389 | every classic step is a finite nonempty run to the corresponding block, or to EXIT with its verdict |
| Simulation.StepsSimulated | src/pcap2bpf/bpf_convert.c:202-389 | n classic steps are simulated by at least n filter steps |
| Preservation.FilterSimulates | src/pcap2bpf/bpf_convert.c:164-412 | the same from the filter's entry, at any position of any program |
| Preservation.StepStaysInside | src/pcap2bpf/bpf_convert.c:255-256 | a converted filter ending in RET never leaves its classic program |
| Preservation.SemanticPreservation | src/pcap2bpf/bpf_convert.c:164-412 | a converted filter exits with r exactly when the classic filter returns a value whose verdict is r, wherever it stands and whatever the packet, frame and other registers |
| Preservation.DivergencePreserved | src/pcap2bpf/bpf_convert.c:164-412 | it runs forever exactly when the classic filter does, never faults, and leaves its own code only by EXIT |
| Preservation.FallingOffPreserved | src/pcap2bpf/bpf_convert.c:202-389 | a filter runs past its end exactly when the classic one does |
| Labels.BlockNeedsItsLabels | src/pcap2bpf/bpf_convert.c:210-382 | a block is emitted exactly when the opcode is known and each of its labels gets an offset |
| Labels.QueryAccepts | src/pcap2bpf/bpf_convert.c:251-260 | the length query accepts exactly known opcodes with targets inside the program |
| Labels.ConvertibleExactly | src/pcap2bpf/bpf_convert.c:185-262 | conversion succeeds exactly when the query does, every final offset fits 16 bits and no forward jump stands beyond position 32767 |
| Labels.ShortOutputConverts | src/pcap2bpf/bpf_convert.c:251-262 | output of at most 32768 instructions always converts after a successful query |
| Labels.SmallFiltersConvert | src/pcap2bpf/bpf_convert.c:251-262 | so do filters of at most 1213 instructions |
| Labels.LateJumpRejected | src/pcap2bpf/bpf_convert.c:251-262 | a legal forward filter that passes the query and whose final offsets all fit, rejected by the first emitting pass |
| Labels.LoadJumpsInside | src/pcap2bpf/bpf_convert.c:145-152 | every jump of a packet load is forward and stays in its block |
| Labels.EveryJumpLands | src/pcap2bpf/bpf_convert.c:251-324 | every jump of the output goes to the first instruction of one of its source instruction's targets, or forward within its block |
| Termination.OutputJumpsForward | src/pcap2bpf/bpf_convert.c:251-324 | forward classic jumps give only nonnegative offsets |
| Termination.ClassicTerminates | src/pcap2bpf/bpf_convert.c:251-268 | a legal forward classic filter returns within its length |
| Relocation.RunRelocated | src/pcap2bpf/pcap2bpf.cpp:148-149 | code that does not leave itself runs at any position of any program as it runs alone |
| Termination.TotalCorrectness | src/pcap2bpf/bpf_convert.c:164-412 | its conversion, wherever it stands, exits with the classic verdict within as many steps as it has instructions |
| Converter.EmitEpilogueFail | src/pcap2bpf/bpf_convert.c:93-97 | appends the epilogue at the instruction pointer |
| Converter.EmitHead | src/pcap2bpf/bpf_convert.c:99-146 | appends the load up to its epilogue with the failure jumps unlinked, and records them in order in at most 6 of the 8 slots |
| Converter.Backpatch | src/pcap2bpf/bpf_convert.c:148-152 | every recorded jump gets the distance to the epilogue, nothing else in the buffer changes |
| Converter.EmitPacketLoad | src/pcap2bpf/bpf_convert.c:99-162 | appends exactly the packet load block |
| Converter.EmitJmpOff | src/pcap2bpf/bpf_convert.c:251-262 | stores the offset, or fails on a target outside the program or an offset outside 16 bits |
| Converter.EmitCond | src/pcap2bpf/bpf_convert.c:270-324 | the conditional cases build exactly the specified block, or fail exactly when it does |
| Converter.EmitMsh | src/pcap2bpf/bpf_convert.c:326-335 | builds the MSH block in the temporary buffer |
| Converter.EmitRet | src/pcap2bpf/bpf_convert.c:337-348 | builds the RET block |
| Converter.EmitBlock | src/pcap2bpf/bpf_convert.c:203-384 | the switch builds exactly the specified block within 128 instructions, or fails exactly when there is none |
| Converter.CopyBlock | src/pcap2bpf/bpf_convert.c:385-387 | the block is appended and nothing behind it changes |
| Converter.EmitPass | src/pcap2bpf/bpf_convert.c:185-389 | a pass fills the address table, succeeds exactly when all its blocks exist, and the second one writes the filter |
| Converter.QueryPass | src/pcap2bpf/bpf_convert.c:198-199 | the query counts the length that is later emitted |
| Converter.BpfConvertFilter | src/pcap2bpf/bpf_convert.c:164-412 | the query and conversion results, errors included; the query succeeds exactly on 1 to 4096 of the 47 opcode numbers with their used targets inside; two passes suffice, so the third-pass error is unreachable and the final assert holds |
| Converter.GetInsnsForConstantFilter | src/pcap2bpf/bpf_convert.c:68-91 | null pointers, query, short buffer and fill |
| Interpreter.ExecAluInPlace | tests/test_pcap2bpf.cpp:103-129 | updates the destination register in place as the target machine does |
| Interpreter.ProbeInPlace | tests/test_pcap2bpf.cpp:156-164 | the helper call in place |
| Interpreter.ExecInPlace | tests/test_pcap2bpf.cpp:189-216 | one instruction in place is one step of the target machine |
| Interpreter.RunBpfProg | tests/test_pcap2bpf.cpp:178-218 | the loop computes the target machine's outcome |
| Interpreter.RunConverted | tests/test_pcap2bpf.cpp:335-348 | on a converted filter its result is the classic verdict |
| Splicer.InjectEbpfFilter | src/pcap2bpf/pcap2bpf.cpp:121-161 | the three copy loops compute the splice; a range outside the program is an error that changes nothing |
| Splicer.InjectKeepsTheRest | src/pcap2bpf/pcap2bpf.cpp:136-158 | the filter stands at the position, and everything outside the range keeps all fields but the imm of subprogram calls |
| Splicer.CallRelocatedExactly | src/pcap2bpf/pcap2bpf.cpp:136-158 | a call outside the range reaches the image of its target if and only if nothing moves or the target is neither 0 nor missed by a range of at most one instruction |
| Splicer.SubprogCallShape | src/pcap2bpf/pcap2bpf.cpp:111-119 | a subprogram call is exactly opcode 0x85 with destination 0, source 1 and offset 0 |
| Splicer.CallFieldExactly | src/pcap2bpf/pcap2bpf.cpp:136-158 | every instruction outside the range, by its fields: which subprogram calls get the length difference added or subtracted, whatever they target; everything else stays |
| Splicer.CallToEntryBreaks | src/pcap2bpf/pcap2bpf.cpp:140 | a call to instruction 0 that is sent to instruction 1 |
| Splicer.ShortRangeMissesCall | src/pcap2bpf/pcap2bpf.cpp:140 | a call to the instruction behind a range of one instruction that does not follow it |
| Splicer.JumpKeptExactly | src/pcap2bpf/pcap2bpf.cpp:136-158 | an ordinary jump keeps its target exactly when it does not cross the range |
| Splicer.CrossingJumpBreaks | src/pcap2bpf/pcap2bpf.cpp:136-158 | a jump over a growing range that lands before its old target |
| Injection.ShiftBound | src/trace/trace.cpp:87 | the running offset never takes a stub position below zero |
| Injection.KeptStays | src/trace/trace.cpp:86-94 | a kept instruction, call target included, follows the next replacement |
| Injection.ProgressStep | src/trace/trace.cpp:86-94 | after each iteration the program is the simultaneous replacement of the stubs so far |
| Injection.SequentialIsSimultaneous | src/trace/trace.cpp:67-95 | the loop's result is one simultaneous replacement of all stubs, every call outside them leading to the image of its old target |
| Injection.SimultaneousUnique | src/trace/trace.cpp:67-95 | there is only one such program |
| Injection.FilterFillsStub | src/trace/trace.cpp:86 | a filter takes exactly the room of the seven instructions it replaces |
| Injection.StubByName | src/trace/trace.cpp:62-84 | a record named "filter_pcap_ebpf_l" and anything makes one stub, with the L3 filter exactly if a 3 comes next |
| Injection.NoStubByName | src/trace/trace.cpp:72-80 | a record of no function, without a name or with another name makes none |
| Injection.StubsOfConcat | src/trace/trace.cpp:71-80 | every record makes its stubs independently of the others, in order |
| Injection.JumpKeptThroughAll | src/trace/trace.cpp:67-95 | after the whole loop an ordinary jump outside the stubs is unchanged, and lands on the image of its target exactly when the stubs it leaps over grow by nothing in all, as when there are none |
| Injection.CustomPrepareLoad | src/trace/trace.cpp:60-103 | the stubs before the first one outside the program are replaced in sequence, each by the filter its name asks for; succeeds exactly when there is no such stub, and then stale function and line information is gone |
| Filters.MakeConstantFilter | src/pcap2bpf/pcap2bpf.cpp:96-109 | query then fill yields the constant filter |
| Filters.ConstantFilterRuns | src/pcap2bpf/bpf_convert.c:70-73 | a constant filter exits with its constant |
| Filters.CompileEbpfFilter | src/pcap2bpf/pcap2bpf.cpp:60-94 | succeeds exactly if the expression is empty or libpcap's filter converts; otherwise no instructions and libpcap's error, or -22; an empty expression gives the two instructions that accept |
| Filters.TraceFilters.Prepare | src/trace/trace.cpp:36-58 | fails exactly when both link types fail, with the error for Ethernet and changing nothing; one failing type gets the two instructions that reject |
| Filters.PreparedFilterDecides | src/trace/trace.cpp:36-58 | a prepared filter exits with exactly what the expression means: all packets if empty, none if the type failed, else the classic verdict |
| Filters.PreparedFilterReturns | src/trace/trace.cpp:36-58 | a prepared filter with forward jumps returns the meant verdict within its own length, wherever it stands |
| EndToEnd.PreparedIsInjectable | src/pcap2bpf/pcap2bpf.cpp:111-119 | a prepared filter has 2 to 110597 instructions and no subprogram call of its own to relocate |
| EndToEnd.PrepareAndLoad | src/trace/trace.cpp:177-197 | preparing and loading fails exactly when the expression compiles for neither link type, with the error for Ethernet and leaving the program alone, and otherwise produces the patched program |
| EndToEnd.PatchedCallReaches | src/trace/trace.cpp:67-95 | in the patched program a call that reached a stub is still a call, and its new target is the prepared filter for the link type that the stub's name asks for |
| EndToEnd.PatchedCallDecides | src/trace/trace.cpp:67-95 | that target exits with exactly the verdict the expression means for the link type that the stub's name asks for |
| EndToEnd.KernelStubDecides | src/bpf/skbtracer.bpf.c:77-95 | the stub named filter_pcap_ebpf_l3 decides by the meaning for raw IP packets, the one named filter_pcap_ebpf_l2 by that for Ethernet frames |
| EndToEnd.SmallHostPatched | src/trace/trace.cpp:67-95 | one program of twelve instructions written out before and after, with a call to its stub, one over it and one from behind it |
| EndToEnd.PatchedCallReturns | src/trace/trace.cpp:67-95 | for a filter with forward jumps it does so within as many steps as the prepared filter has instructions |

## Left out

- Interpreter.RunBpfProg: takes a bound after which the run has stopped, because a program with backward jumps may
  run forever; `RunConverted` supplies it for forward filters.
- Interpreter.ExecInPlace: memory accesses outside the stack frame are faults, because a filter makes none; raw
  pointers into other memory are reached only through the probe read. Unknown instructions are faults too, where the
  test interpreter skips them.
- Splicer.InjectEbpfFilter: a sum `position + orig_len` that wraps around 64 bits to a position inside the program is
  excluded, because the loops would then leave the arrays; storing the new program does not fail.
- Injection.CustomPrepareLoad: function records come in ascending order with stubs seven instructions long, which is
  what the compiled kernel program has; looking up their names in the type information is an input.
- Alu: arithmetic shift, sign-extending moves and loads, 64-bit byte order and atomic operations are never emitted.
- libpcap itself: an arbitrary answer per expression and link type, with its promise that a filter it returns is
  legal and ends in RET as a condition of the theorems about verdicts.
- The rest of the kernel program around the call, including the VLAN and address parsing of
  `src/bpf/skbtracer.bpf.c`: calls are followed into the filter only.
- Skeleton loading beyond the injection loop, BTF, ring buffer, signals, options, symbol database and output formatting: system calls and
  text formatting.
- Allocation failure and the kernel verifier's rules on reserved fields.
- Log messages.
