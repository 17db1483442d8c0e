# A verified model of an i386 interpreter and its OS/2 loader

The repository holds an interpreter for the Intel 80386 (`maverick/run386.c` with the tables of `common/i386.h`), two
front ends for it, a real-mode one (`maverick/main.c`) and an OS/2 one (`locutus`), and a debugger with a disassembler
of its own (`iceman/dis.c`). This project models them in Dafny and proves what the parts do together:

* an imported call, from the fixup record in the file to the host function and back;
* a machine-code routine, the decimal printer of `maverick/tests/bricks.asm`, run on the interpreter for every input;
* every implemented instruction of the one-byte opcodes as a whole step, behind any prefixes, against the registers and
  bytes that its text names;
* the arithmetic, string, stack and prefix behaviour of the interpreter, against integers, sequences and memory moves;
* the page-frame allocator, against a page-by-page first fit;
* the agreement of the two instruction decoders.

## Layout

`Machine.dfy` and `Step.dfy` give the interpreter's effect as functions on a `State` value; the laws are lemmas about
these functions. `Run386.dfy` is the interpreter itself, a class whose fields and bus change in place; every method is
proved to have the effect given by the function, including the way it fails to return. `Machine.Halt` names those ways:
a `while(1)`, host-undefined behaviour, a host service outside the model, prefix recursion without end.

| file | part |
|---|---|
| `Words.dfy` | machine words, truncation, sign, bits |
| `I386.dfy` | instruction tables, register and flag numbers |
| `Machine.dfy`, `Step.dfy` | state, bus, effect of each operation, decoding, one step, runs |
| `Run386.dfy` | the processor object and the subroutine call of both front ends |
| `FlagLaws.dfy`, `CarryChain.dfy`, `MulDiv.dfy` | what the flags and the arithmetic mean |
| `StringLaws.dfy`, `StackLaws.dfy`, `ShiftLaws.dfy` | REP strings, stack discipline, shifts and EFLAGS on the stack |
| `RunInvariants.dfy` | prefixes, real mode |
| `Places.dfy`, `Addressing.dfy`, `Texts.dfy` | parts of registers and bytes of memory; effective addresses; from an instruction's text to its execution |
| `MoveSteps.dfy`, `AluSteps.dfy`, `AccumulatorSteps.dfy`, `StringSteps.dfy`, `StackSteps.dfy`, `FrameSteps.dfy`, `BranchSteps.dfy` | whole instructions, by the places in their text |
| `Departures.dfy` | operations that differ from the processor's, with the exact conditions |
| `Instructions.dfy`, `UpdateScore.dfy` | single instructions as steps; the decimal printer |
| `PageFrames.dfy`, `Thunks.dfy`, `Fixups.dfy`, `PageTables.dfy` | the OS/2 side: pages, thunks, fixup records, where each page's records are |
| `ImportCall.dfy`, `FirstCall.dfy` | the end-to-end call, for any page and for a program of one call |
| `Disassembler.dfy`, `Decoders.dfy` | the second decoder; when and where the two decoders agree |

## Where the code departs from its intent

The model follows the code. Each departure below is part of it, and the theorem named says exactly what holds.

* 32-bit carry is never set (common/i386.h:1111): `FlagLaws.CompareDecides32`; a chain of dwords is right exactly when
  no limb below the top carries, `CarryChain.DwordChainExact`.
* Opcode 83h at 16 bits compares with an immediate extended to 32 bits: `Instructions.StepCompareImm8`.
* DIV and IDIV do not fault on a quotient that does not fit: `MulDiv.DivExact`, `MulDiv.IdivExact`.
* POPA at 16 bits skips the stored SP without carrying out of SP: `StackLaws.PushaThenPopa`.
* NEG sets carry where it should clear it: `Departures.NegCarryInverted`, and as a whole step `StepNeg`. CMPS compares
  low bytes, SCAS all of EAX or nothing, and opcode A7h stores: `Departures.CmpsComparesLowBytes`, `ScasComparesEax`,
  `CmpswStores`. CMPS meets elements wider than a byte behind REP only, at F3 31 for one: `Departures.StepRepXor`.
* PUSH of a byte, 6Ah, pushes it without its sign: right exactly below 80h, `StackSteps.PushedByte`. ENTER leaves ESP a
  slot lower than the processor's, always: `FrameSteps.EnterOneSlotLower`. Opcode D2h shifts a word or double word where
  a byte is meant: right exactly when the bytes above come to what they are, `AluSteps.WholeForByte`.
* REPNE stops on ZF before any operation: F2 before MOVS, STOS or LODS does what F3 does exactly when ZF is clear or ECX
  at most 1, `StringLaws.RepneTransfers`.
* String instructions in 16-bit code use ESI and EDI in full: right exactly when their upper halves make no difference on
  the bus and their lower halves do not carry, `StringSteps.FullIndex`.
* SHR leaves carry, and SHL sets it for bytes only: `ShiftLaws.ShlExact`, `ShrExact`. SIB scales 2 and 3 are undefined:
  `Departures.SibDecodes`.
* The free-page search can spin: exactly when `PageFrames.FrameAllocator.FindFirstFreePage` says, and after a single
  allocation, `PageFrames.SpinsAfterOneAllocation`.
* The count of free pages has no bound (locutus/os2mem.c:115): from VMMInit on, a request that lies in the bitmap returns
  exactly when some page of the host memory behind the bitmap reads as taken, `PageFrames.PackedRequest`. The model's
  allocator holds the bitmap's 4096 words and, behind them, any host words, which VMMInit leaves as they are.
* The free-run count is one too high (locutus/os2mem.c:115-121): a request is given a taken page exactly when a run one
  page too short is met first, `PageFrames.OverlapsIffTight`; two requests after VMMInit share a page,
  `PageFrames.OvercountOverlaps`. The constant `repaired` selects the intended count, and every allocation theorem covers
  both.
* The listing of an instruction with prefixes takes sizes by toggling: `Decoders.DecodersCompared`, and two instructions
  that it gets wrong, `Decoders.SegmentOverrideMisleads`, `Decoders.RepeatedSizeMisleads`.
* A fixup value of 0 is skipped (locutus/enterprs.c:87): a field is right exactly when its value is nonzero or the field
  was zero, `Fixups.SourceIsDone`. So a call whose target is the very next instruction goes there exactly when its
  displacement was zero in the file, `ImportCall.CallGoesToThunk`; `FirstCall.NextInstructionUnpatched` is a program
  whose call does not.
* `FixupPage` always uses the object's first page entry (locutus/enterprs.c:106): page k is given its own records exactly
  when its slice of the record table equals the first page's, `PageTables.GivenOwnRecords`; a file whose second page is
  never patched is in `PageTables.SecondPageUnpatched`.
* maverick masks addresses to 20 bits but reads words from consecutive host bytes: a word at the last address is right
  exactly when the byte behind the buffer equals the first, `Departures.WordAcrossTop`. A word may reach three bytes
  beyond the buffer; the model's memory has them.

## Model

| member | source | states |
|---|---|---|
| Machine.BytesOfWord | maverick/main.c:76-107 | the stored bytes of any value, added up little-endian, are the value truncated to 8, 16 or 32 bits |
| Machine.ReadBack | maverick/main.c:76-107 | a bus write of any width reads back truncated, at every address of both buses, the 20-bit mask included |
| Machine.PartialWrites | maverick/run386.c:242-256 | writing AL, AH or AX changes its own bits and no other part of the register |
| Run386.Processor.BootSector | maverick/main.c:109-135 | the initial state is real mode, 16-bit, with no prefix pending |
| Run386.Processor.Flat | locutus/enterprs.c:15-38 | the initial state has 32-bit code and stack at base 0 |
| Run386.Processor.BusRead32 | maverick/main.c:59-87 | four consecutive host bytes from the translated address, little-endian |
| Run386.Processor.BusWrite16 | maverick/main.c:94-103 | exactly the two bytes at the translated address change |
| Run386.Processor.BusWrite32 | maverick/main.c:105-107 | exactly the four bytes at the translated address change |
| Run386.Processor.Push | maverick/run386.c:30-39 | the in-place push is the push the stack laws are about |
| Run386.Processor.Pop | maverick/run386.c:41-54 | the value is the one on top, and only ESP moves |
| Run386.Processor.ReadSource | maverick/run386.c:157-211 | the operand's value for every kind and size, or the way the read fails |
| Run386.Processor.WriteDest | maverick/run386.c:213-284 | the whole state after the store for every kind and size, or the way it fails |
| Run386.Processor.AluOp | maverick/run386.c:319-393 | result and flags of all eight operations are those that `AluSteps.AluMeans` gives by numbers and bits |
| Run386.Processor.DoAluOp | maverick/run386.c:319-396 | operands are read before the flags change, CMP writes nothing, the rest of the state stays |
| Run386.Processor.SpecialOp | maverick/run386.c:398-473 | result, high half or remainder, and flags of TEST, NOT, NEG, MUL, IMUL, DIV and IDIV |
| Run386.Processor.DoAluSpecialOp | maverick/run386.c:398-493 | the low half goes to the destination and the high half to AH, DX or EDX, for WRITE_DX entries only |
| Run386.Processor.DoIncDecOp | maverick/run386.c:718-740 | the whole new state; carry is not touched |
| Run386.Processor.DoShiftOp | maverick/run386.c:286-317 | the in-place shift is the one the shift laws are about; other shifts spin and counts above 31 are undefined |
| Run386.Processor.Condition | maverick/run386.c:496-541 | a condition and its negation, paired by the low bit, decide as the sixteen separate cases do |
| Run386.Processor.DoCallNearOp | maverick/run386.c:683-687 | the return address is pushed before the target is read |
| Run386.Processor.DoRetNearOp | maverick/run386.c:1341-1346 | EIP is the popped value and ESP moves by the width and the operand |
| Run386.Processor.DoLoopOp | maverick/run386.c:696-708 | ECX counts down before it is compared with zero, and the flags stay |
| Run386.Processor.DoIntOp | maverick/run386.c:965-972 | vector 80h passes EAX and the address above the return address to the host and changes EAX and memory alone |
| Run386.Processor.DoXchgOp | maverick/run386.c:940-948 | both operands are read before either is written |
| Run386.Processor.DoExtend | maverick/run386.c:909-938 | CBW, CWDE, CWD and CDQ in place |
| Run386.Processor.LoadSegmentRegister | maverick/run386.c:661-670 | the in-place load is the one `StackSteps.StepLoadSegment` is about: selector and base outside protected mode; inside it spins |
| Run386.Processor.DoEnterOp | maverick/run386.c:562-569 | the state after ENTER, the second push included |
| Run386.Processor.DoLeaveOp | maverick/run386.c:571-579 | the state after LEAVE at either stack width |
| Run386.Processor.DoPushaOp | maverick/run386.c:586-599 | eight pushes amount to pushing one list that holds the ESP from before |
| Run386.Processor.DoPopaOp | maverick/run386.c:601-622 | seven pops and the skip amount to popping two lists at the operand size |
| Run386.Processor.DoPopfOp | maverick/run386.c:624-634 | the in-place POPF is the one the EFLAGS laws are about |
| ShiftLaws.ShlExact | maverick/run386.c:286-304 | SHL by n multiplies by 2^n modulo the operand size; at 8 bits carry is the bit above the byte, and no other flag changes |
| ShiftLaws.ShrExact | maverick/run386.c:305-315 | SHR by n divides by 2^n and changes no flag |
| ShiftLaws.ShiftHalts | maverick/run386.c:286-315 | a shift returns if and only if it is SHL or SHR with a count, as a byte, below 32 |
| ShiftLaws.PopfExact | maverick/run386.c:624-634 | a 16-bit POPF takes bits 0 to 15 from the stack and keeps bits 16 to 31; a 32-bit one takes all |
| ShiftLaws.PushfThenPopf | maverick/run386.c:581-634 | PUSHF then POPF restores EFLAGS and the registers if and only if no upper half is cut off by a 16-bit stack under a 32-bit POPF |
| Run386.Processor.DoStringOp | maverick/run386.c:788-889 | one element of MOVS, STOS, LODS, CMPS or SCAS with its index updates, the one the steps of `StringSteps` are about |
| Run386.Processor.DoRepStringOp | maverick/run386.c:891-907 | the in-place loop terminates, by ECX, in the state of the recursive repetition the REP laws are about |
| Run386.Processor.DecodeModrm16 | maverick/run386.c:1278-1339 | operand and EIP for all 16-bit addressing forms, those of `Addressing.Decodes16` |
| Run386.Processor.DecodeSibByte | maverick/run386.c:1205-1225 | offset, default segment and EIP, or undefined behaviour for scales 2 and 3 |
| Run386.Processor.DecodeModrm32 | maverick/run386.c:1227-1276 | operand and EIP for all 32-bit addressing forms, those of `Addressing.Decodes32` |
| Run386.Processor.DecodeOneOperand | maverick/run386.c:1058-1203 | operand, size, segment and EIP for all operand kinds, those that `Texts.RmAtText` traces to the text |
| Run386.Processor.DecodeInstruction | maverick/run386.c:1493-1520 | decoding in place yields the instruction and the state of the decoder the agreement theorem is about |
| Run386.Processor.ExecuteInstruction | maverick/run386.c:1522-1613 | the execution switch, all operations, in place |
| Run386.Processor.StepAgain | maverick/run386.c:1440-1475 | the recursive in-place step, with overrides set before and cleared after the inner step |
| Run386.Processor.StepOnce | maverick/run386.c:1440-1613 | one call is one step of the runs all theorems speak of |
| Run386.Processor.EnterSubroutine | locutus/enterprs.c:280-290 | the pushing loop leaves parameters and escape address as one list of pushes |
| Run386.Processor.Exec | locutus/enterprs.c:280-330 | for every subroutine whose run gets to the escape address the loop terminates, at the first arrival and with EAX; with the listing of locutus it may stop before only because the listing runs off the end of memory |
| Run386.ParametersInOrder | maverick/main.c:295-307 | the callee finds the escape address on top and parameter k in slot k + 1, at either stack width |
| Run386.PrinterEscapes | maverick/main.c:295-339 | the decimal printer, called as a subroutine, comes to the escape address with the number printed |
| Step.StepsCompose | maverick/run386.c:1440-1613 | runs compose and their lengths add |
| FlagLaws.CompareDecides | maverick/run386.c:368-378 | CMP then Jcc at 8 and 16 bits: each of the twelve relational conditions holds if and only if its integer relation does |
| FlagLaws.CompareDecides32 | common/i386.h:1104-1140 | at 32 bits the signed ones do, and an unsigned one exactly when there is no borrow |
| FlagLaws.CompareWithSignExtended | common/i386.h:940 | a 16-bit comparison with an 8-bit immediate extended to 32 bits: signed conditions decide; unsigned ones if and only if the immediate is not negative |
| Instructions.StepCompareImm8 | maverick/run386.c:319-396 | a whole step over opcode 83h with reg field 7, any ModR/M operand: the same |
| FlagLaws.SubSign | common/i386.h:1137-1140 | SF and OF mean less-than and out-of-range on integers, borrow included |
| FlagLaws.AddSign | common/i386.h:1132-1135 | the same for sums |
| FlagLaws.AuxAndParity | common/i386.h:1094-1095 | AF is the carry out of, or the borrow into, the low four bits, carry-in included; PF holds if and only if the result's low byte has an even number of ones |
| FlagLaws.IncDecFlags | maverick/run386.c:718-740 | INC sets OF if and only if the operand is the largest signed value, DEC if and only if it is the smallest; AF if and only if the low four bits are 15, or 0 |
| CarryChain.AddChain | maverick/run386.c:348-358 | ADD then any number of ADCs is addition modulo 2^(w*n), with final CF the carry and OF the signed overflow of the whole number |
| CarryChain.SubChain | maverick/run386.c:359-378 | SUB then SBBs likewise for subtraction |
| CarryChain.DwordChainExact | common/i386.h:1111 | over dword limbs the chain is the sum or difference modulo 2^(32n) if and only if no limb below the top carries or borrows |
| CarryChain.SubtractingBackRecovers | maverick/run386.c:348-378 | subtracting the addend back recovers every limb and borrows exactly what was carried |
| CarryChain.LoopInstructionsKeepCarry | maverick/run386.c:696-740 | INC, DEC, MOV, PUSH, POP, LOOP and jumps between limbs keep CF |
| MulDiv.MulExact | maverick/run386.c:448-451 | the double-width accumulator is the exact product at 8, 16 and 32 bits, and nothing else changes |
| MulDiv.ImulExact | maverick/run386.c:408-417 | the double-width accumulator is the exact signed product |
| MulDiv.ImulIntoRegister | maverick/run386.c:408-417 | two-operand IMUL leaves the signed product modulo the operand size in the register and changes nothing else |
| MulDiv.ImulRows | common/i386.h:910-912 | opcodes 69, 6B and 0F AF are these |
| MulDiv.DivExact | maverick/run386.c:452-455 | n = q*d + r with r < d if and only if the high half is below the divisor |
| MulDiv.IdivExact | maverick/run386.c:418-433 | truncation toward zero, with the remainder right whenever the host divides and the quotient exactly when it fits |
| MulDiv.MulThenDiv | maverick/run386.c:448-455 | MUL r then DIV r, r nonzero and not aliased, gives the accumulator back with a zero high half |
| MulDiv.ExtendThenIdiv | maverick/run386.c:909-938 | CBW, CWD or CDQ then IDIV divides the signed accumulator, but for the most negative value by -1 |
| MulDiv.GroupOperands | maverick/run386.c:1348-1406 | these operands are the ones an F6 or F7 instruction decodes to |
| StringLaws.RepMovs | maverick/run386.c:850-907 | REP MOVS for every count, size, direction and overlap, also within an element: each byte's origin, ECX 0, ESI and EDI past the block, flags and the rest kept; `StringSteps.StepRepMovs` gives the two addresses |
| StringLaws.MovesLikeMemmove | maverick/run386.c:850-862 | in either direction a destination not ahead of the source, or clear of it, receives the old source |
| StringLaws.MovesPattern | maverick/run386.c:850-862 | in either direction a destination d ahead, at least an element, repeats the first d bytes |
| StringLaws.RepStos | maverick/run386.c:788-798 | REP STOS fills the block with EAX's bytes, element by element in either direction, ECX 0, EDI past the block, all else kept |
| StringLaws.RepCmpsb | maverick/run386.c:812-907 | REPE CMPSB stops at the first difference, REPNE CMPSB at the first equal pair, or after the whole count, with ECX, ESI, EDI and ZF to match |
| StringLaws.RepScasb | maverick/run386.c:828-907 | the same for SCASB, which compares with all of EAX |
| StringLaws.RepneTransfers | maverick/run386.c:891-907 | F2 before MOVS, STOS or LODS does what F3 does if and only if ZF is clear or ECX is at most 1; else it stops behind one element |
| StackLaws.PushEffect | maverick/run386.c:30-39 | one push writes one slot and moves ESP by the stack width |
| StackLaws.PushesThenPops | maverick/run386.c:30-54 | n pushes then n pops return the values reversed, restore ESP and change only the slots |
| StackLaws.ReturnedIsReversed | maverick/run386.c:30-54 | the k-th value popped is the k-th from the last pushed |
| StackLaws.PopIntoEffect | maverick/run386.c:601-622 | a list of pops loads each register from its own slot |
| StackLaws.PushaThenPopa | maverick/run386.c:586-622 | all registers come back, unless at 16 bits the skip carries out of SP: then ESP is 64K low |
| StackLaws.FrameRestores | maverick/run386.c:562-579 | in 32-bit mode an ENTER and LEAVE pair, with any pairs nested in it, restores EBP and ESP around bodies that respect the saved slots |
| RunInvariants.TableWellPlaced | common/i386.h:792-1079 | over all entries: control registers are never written and segment registers only by segment loads |
| RunInvariants.PrefixBytes | common/i386.h:792-1079 | the prefix entries are 66h, 67h, F0h and the six segment overrides, and no others |
| RunInvariants.StepScansPrefixes | maverick/run386.c:1440-1475 | any string of prefixes: the recursion runs the bare instruction under the union of the overrides and the last segment, restores all of them and counts one step |
| RunInvariants.PrefixesUnwind | maverick/run386.c:1440-1475 | the same from any starting overrides |
| RunInvariants.EndlessPrefixesNeverReturn | maverick/run386.c:1449-1475 | code that is all prefixes never returns, whatever the recursion depth |
| RunInvariants.RunBareKeeps | maverick/run386.c:1476-1613 | an instruction leaves overrides, control registers and the step count alone and keeps real mode |
| RunInvariants.RunsStayInRealMode | maverick/run386.c:661-681 | in every run each segment base stays selector * 16, protected mode stays off and nothing is pending between steps |
| Instructions.DirectStep | maverick/run386.c:1493-1520 | a step over any entry without a ModR/M byte is the execution of its decoded form, operand bytes and EIP worked out |
| Instructions.ModrmStep | maverick/run386.c:1493-1520 | the same with a ModR/M byte |
| Words.Bitwise | maverick/run386.c:332-391 | bit k of AND, OR and XOR is the AND, OR or inequality of bits k |
| Words.AndPlusOr | maverick/run386.c:332-381 | AND and OR of two words add up to their sum |
| Places.ReadsPlace | maverick/run386.c:157-211 | a register or memory operand is read as the part of the register, or the bytes in the segment, that it names |
| Places.WritesPlace | maverick/run386.c:213-284 | a store leaves the value there and changes nothing else |
| Places.AssignedHolds | maverick/run386.c:213-284 | the place then holds the value, cut off at its size |
| Places.AssignedKeeps | maverick/run386.c:213-284 | every place that does not overlap it holds what it held |
| Addressing.Decodes16 | maverick/run386.c:1278-1339 | each of the 24 memory forms: the offset is the sum of the named registers' low words and the signed displacement modulo 65536, and SS is the default if and only if BP is the base |
| Addressing.Decodes32 | maverick/run386.c:1205-1276 | the same for every 32-bit ModR/M and SIB byte, with scales 2 and 3 undefined exactly under an index |
| Texts.RmAtText | maverick/run386.c:1103-1114 | behind any prefixes the ModR/M operand is that register, or the bytes at that offset in the segment of the last segment prefix, or else the default |
| Texts.StepModrmText | maverick/run386.c:1440-1520 | one step over any prefixes and an opcode with ModR/M byte executes the instruction the text gives, or ends with an undefined index |
| Texts.StepPlainText | maverick/run386.c:1440-1520 | the same without ModR/M byte |
| MoveSteps.StepMov | maverick/run386.c:544-548 | 88 to 8B with any prefixes and ModR/M byte: the bytes at one named place go to the other, and only EIP changes besides |
| MoveSteps.StepMovImmediate | maverick/run386.c:544-548 | B0 to BF |
| MoveSteps.StepMovImmediateRm | maverick/run386.c:544-548 | C6 and C7 |
| MoveSteps.StepMovOffset | maverick/run386.c:1086-1097 | A0 to A3: the address is in the text, its segment the last prefix's or DS |
| MoveSteps.StepLea | maverick/run386.c:550-554 | the offset, whatever the segment; with a register it spins |
| MoveSteps.StepExchange | maverick/run386.c:940-948 | each of the two named places receives what the other held |
| MoveSteps.StepExchangeAccumulator | maverick/run386.c:940-948 | the same for 90 to 97 |
| MoveSteps.StepXlat | maverick/run386.c:636-640 | AL becomes the byte at EBX + AL in the last prefix's segment, or DS |
| MoveSteps.StepSahf | maverick/run386.c:642-650 | five flags become their bits of AH |
| MoveSteps.StepLahf | maverick/run386.c:652-654 | bit k of AH becomes flag k |
| AluSteps.AluMeans | maverick/run386.c:328-391 | the result of each of the eight operations as a number, and every flag after it: ZF, SF and PF of the result, OF and AF by signed range and low digits, CF as the bit above the size, CF and OF clear after AND, OR and XOR |
| AluSteps.StepAlu | maverick/run386.c:319-396 | the eight operations between a register and a ModR/M operand, behind any prefixes |
| AluSteps.StepAluAccumulator | maverick/run386.c:319-396 | between the accumulator and an immediate |
| AluSteps.StepAluImmediate | maverick/run386.c:319-396 | 80 to 83, with the sign extension of 83 |
| AluSteps.LogicBits | maverick/run386.c:332-391 | after OR, AND and XOR each bit of the destination is that of the operands' bits |
| AluSteps.StepTest | maverick/run386.c:456-463 | 84, 85 and the group form: the flags AND would set, and no store |
| AluSteps.StepTestAccumulator | maverick/run386.c:456-463 | A8 and A9 |
| AluSteps.StepNot | maverick/run386.c:434-436 | the complement, with all flags kept |
| AluSteps.NotBits | maverick/run386.c:434-436 | in it every bit is turned over |
| AluSteps.StepNegate | maverick/run386.c:437-447 | NEG at any operand, with exactly the flags it changes |
| AluSteps.StepCountRegister | maverick/run386.c:718-740 | INC and DEC of a register: one more or one less, every flag, CF kept |
| AluSteps.StepCountRm | maverick/run386.c:1408-1418 | the same for FE and FF with reg fields 0 and 1 |
| AluSteps.StepShift | maverick/run386.c:286-317 | all six shift opcodes: times or divided by 2^n at the named place, the flags, and the counts and reg fields that do not return |
| AluSteps.WholeForByte | common/i386.h:1029 | a shift of a whole register does what a shift of its low byte would if and only if the bytes above come out as they were |
| AccumulatorSteps.StepMultiplyDivide | maverick/run386.c:398-493 | MUL, IMUL, DIV and IDIV of F6 and F7 at any operand: both halves of the accumulator as numbers, and exactly when the host faults |
| AccumulatorSteps.StepImul | maverick/run386.c:408-417 | 69 and 6B: the signed product in the register, flags kept |
| AccumulatorSteps.StepExtend | maverick/run386.c:909-922 | 98: the lower half extended with its sign |
| AccumulatorSteps.StepExtendPair | maverick/run386.c:924-938 | 99: DX or EDX is the sign, and the accumulator stays |
| AccumulatorSteps.StepIn | maverick/run386.c:950-957 | the accumulator takes the port's value at its size |
| AccumulatorSteps.StepFromSegment | maverick/run386.c:544-548 | 8C stores the selector; there are no registers 6 and 7 |
| AccumulatorSteps.StepInt | maverick/run386.c:965-972 | CD and CC: the host call of vector 80h, and every other vector left to the host |
| StringSteps.StepMovs | maverick/run386.c:850-862 | one element from ESI in the last prefix's segment or DS to EDI in ES, and both indexes moved |
| StringSteps.StepStos | maverick/run386.c:788-798 | AL, AX or EAX to EDI in ES |
| StringSteps.StepLods | maverick/run386.c:800-810 | the element at ESI in the last prefix's segment or DS to AL, AX or EAX |
| StringSteps.StepCmps | maverick/run386.c:812-826 | ZF says that the two bytes are equal |
| StringSteps.StepScas | maverick/run386.c:828-848 | ZF against all of EAX for AE, kept for AF |
| StringSteps.FullIndex | maverick/run386.c:744-764 | the element at the full index is the one at its low half if and only if the upper half is a multiple of the bus, and both move alike if and only if the low half does not carry |
| StringSteps.StepRepMovs | maverick/run386.c:850-907 | F3 A4 and F3 A5 behind any prefixes: where every byte of the block at EDI in ES comes from in the block at ESI, in the last prefix's segment or DS |
| StringSteps.StepRepStos | maverick/run386.c:788-907 | F3 AA, AB and A7: the block at EDI in ES is filled |
| StringSteps.StepRepCmpsb | maverick/run386.c:812-907 | F3 A6 and F2 A6: the first pair of bytes that differ, or that are equal, by segment bases and registers |
| StringSteps.StepRepScasb | maverick/run386.c:828-907 | F3 AE and F2 AE: the first byte that differs from EAX, or equals it |
| StackSteps.StepLoadSegment | maverick/run386.c:661-675 | 8E: selector and 16 times it as base, the other five registers kept; protected mode spins |
| StackSteps.StepPopSegment | maverick/run386.c:677-681 | 07, 17 and 1F: the same with the word at SS:ESP, and ESP moved by a slot |
| StackSteps.StepPushRegister | maverick/run386.c:556-560 | the register at SS:ESP, one slot down |
| StackSteps.StepPushImmediate | maverick/run386.c:556-560 | the immediate as it is |
| StackSteps.PushedByte | common/i386.h:911 | the byte of 6A is pushed as with its sign if and only if it is below 80h |
| StackSteps.StepPushSegment | maverick/run386.c:556-560 | the selector |
| StackSteps.StepPushRm | maverick/run386.c:1434-1436 | FE and FF with reg field 6 |
| StackSteps.StepPopRegister | maverick/run386.c:656-659 | the slot at SS:ESP to the register, ESP moved first |
| StackSteps.StepPopRm | maverick/run386.c:656-659 | 8F: to the place named before ESP moves |
| StackSteps.StepCallRm | maverick/run386.c:683-687 | FE and FF with reg field 2: the return address is pushed, then the named place is read |
| StackSteps.StepRetNear | maverick/run386.c:1341-1346 | C2 and C3: EIP from SS:ESP, ESP moved by a slot and the operand |
| FrameSteps.StepPusha | maverick/run386.c:586-599 | the eight registers in order, with the ESP from before |
| FrameSteps.StepPopa | maverick/run386.c:601-622 | each register from its slot, over the stored ESP, at the operand size |
| FrameSteps.StepPushf | maverick/run386.c:581-584 | the flags as a word |
| FrameSteps.StepPopf | maverick/run386.c:624-634 | flag k is bit k of the slot, for the low sixteen or all |
| FrameSteps.StepLeave | maverick/run386.c:571-579 | ESP or SP from EBP, then EBP from the slot |
| FrameSteps.StepEnter | maverick/run386.c:562-569 | both pushes, EBP and ESP |
| FrameSteps.EnterOneSlotLower | maverick/run386.c:562-569 | ESP ends one slot below where a single push would leave it, and EBP is right |
| BranchSteps.ConditionsOfResult | maverick/run386.c:496-541 | the conditions on sign, zero and parity after an operation, by its result |
| BranchSteps.StepJumpText | maverick/run386.c:689-694 | every Jcc, JCXZ and JMP with a displacement, behind any prefixes |
| BranchSteps.StepJumpRm | maverick/run386.c:689-694 | FE and FF with reg field 4 |
| BranchSteps.StepLoop | maverick/run386.c:696-708 | E0 to E2: ECX one less, and exactly when the jump is taken |
| BranchSteps.StepCallText | maverick/run386.c:683-687 | E8: the address behind it is pushed |
| BranchSteps.StepFlag | maverick/run386.c:710-716 | CMC, CLC, STC, CLI, STI, CLD and STD |
| BranchSteps.StepSpins | maverick/run386.c:1603-1610 | the 32 unimplemented opcodes without ModR/M byte spin |
| UpdateScore.Divides | maverick/tests/bricks.asm:299-301 | the subtraction loop leaves quotient + 1 and remainder - 10 for every dividend |
| UpdateScore.ShowsCell | maverick/tests/bricks.asm:308-311 | the subroutine stores AX at BX, moves BX down and returns |
| UpdateScore.OneDigit | maverick/tests/bricks.asm:297-306 | one round prints the last digit and goes on with the quotient or falls through |
| UpdateScore.UpdateScorePrints | maverick/tests/bricks.asm:297-311 | for every AX, with code, stack and cells apart, the run terminates, the cells show all digits and a blank, SP is restored, nothing else in memory changes |
| UpdateScore.DigitsDenote | maverick/tests/bricks.asm:297-306 | the digits shown denote the number and have no leading zero |
| PageFrames.FrameAllocator.constructor | locutus/os2mem.c:79-83 | of the bitmap's own pages exactly 0 to 15 are taken, and the host words behind it are any |
| PageFrames.FrameAllocator.FindFirstFreePage | locutus/os2mem.c:85-109 | finds the least free page from the index on; spins if and only if the word has free pages below the index alone and the next 32 are taken; otherwise leaves the bitmap if and only if no page from the index on is free |
| PageFrames.FrameAllocator.NumberOfPagesFreeHere | locutus/os2mem.c:111-122 | the run's length, or one more as written |
| PageFrames.FrameAllocator.VMMScanAddressSpace | locutus/os2mem.c:124-141 | returns page p if and only if p is the first fit and the search spins at no run's end before it; spins or leaves the bitmap if and only if the search does at the end of the trail of runs that are too short |
| PageFrames.FrameAllocator.VMMReserveRegion | locutus/os2mem.c:143-151 | exactly the region's pages become taken |
| PageFrames.FrameAllocator.VMMAllocPages | locutus/os2mem.c:161-169 | returns a page under the same condition, marks the region in full, and otherwise marks nothing |
| PageFrames.PackedRequest | locutus/os2mem.c:79-141 | while the taken pages are the first s, as after VMMInit, a request that lies in the bitmap returns if and only if some page behind the bitmap is taken, and then the first free page |
| PageFrames.FirstAllocations | locutus/os2mem.c:79-169 | then every list of requests that fits the bitmap is served, region after region, with either count |
| PageFrames.RegionsAreDisjoint | locutus/os2mem.c:19-30 | over any sequence of allocations no guaranteed page of a region was taken before or belongs to an earlier region |
| PageFrames.RegionsAvoidReserved | locutus/os2mem.c:79-83 | no region begins in the first 64 KB |
| PageFrames.OvercountExact | locutus/os2mem.c:111-141 | as written, the region returned was free in full if and only if the intended count would return it too |
| PageFrames.OverlapsIffTight | locutus/os2mem.c:111-141 | on the inputs: if and only if no free run of exactly n - 1 pages is met, from the base on, before a run of n |
| PageFrames.OvercountOverlaps | locutus/os2mem.c:115-121 | two requests after VMMInit that are both given page 18 |
| PageFrames.SpinsAfterOneAllocation | locutus/os2mem.c:98-105 | one request after VMMInit after which every request at page 20 spins |
| Thunks.ThunkTable.GenerateThunk | locutus/os2thunk.c:69-80 | a thunk is made if and only if a page between 8 MB and the 512 MB the host reserved is free with a taken one behind; its page becomes taken and holds the eight bytes of the thunk; the outcome and state of every failure are given, a store outside the reservation among them |
| Thunks.ThunkTable.GetModuleProcAddrByOrdinal | locutus/os2thunk.c:82-117 | the answer and the new table, page bitmap and memory for each of the five cases, and when there is no answer: then nothing changes |
| Thunks.ServingKeepsMemo | locutus/os2thunk.c:82-117 | every word stays zero, an untagged pointer or the tagged address of its own page, and mapped words never change |
| Thunks.ThunksAreMemoised | locutus/os2thunk.c:82-117 | over any session two answers are equal if and only if they are for the same table word, and each address still holds the thunk for its own pointer at the end |
| Thunks.SessionExists | locutus/os2thunk.c:82-117 | every list of requests with no undefined one, and no more new words than spare pages below 512 MB, is served |
| Thunks.SessionIsAffordable | locutus/os2thunk.c:82-117 | and no other list is |
| Thunks.FirstSession | locutus/os2mem.c:79-83 | after VMMInit, with some page behind the bitmap taken, that is every list of up to 129024 defined requests |
| Thunks.RefusedIffUnsupported | locutus/os2thunk.c:90-116 | address 0 means out of range or unsupported, and nothing else |
| Fixups.StreamParsesBack | locutus/enterprs.c:112-256 | for every list of well-formed records, any widths and source lists, parsing the serialised stream gives the list back and stops at its end |
| Fixups.ParsedIsWellFormed | locutus/enterprs.c:112-256 | whatever parses is well formed |
| Fixups.ReadRecord | locutus/enterprs.c:113-262 | the in-place cursor reads one record, advances strictly, exits on the two unsupported targets and stays in the buffer |
| Fixups.DoFixup | locutus/enterprs.c:83-102 | exactly the bytes of the value at its size are stored; a zero value stores none |
| Fixups.PatchSources | locutus/enterprs.c:257-274 | every source of the record is patched, relative to its own end where self-relative |
| Fixups.FixupPage | locutus/enterprs.c:104-276 | for every file, object and page: exactly the records between the object's first two page entries are applied, in order; it stops for the reason the parser gives, or fails on a thunk if and only if they ask for more new imports than there are spare pages, or for an undefined one; the state is specified in every case |
| Fixups.FixupRecords | locutus/enterprs.c:112-275 | the loop, the same for any stream of records |
| PageTables.OwnRecords | locutus/enterprs.c:105-110 | in a record table of any pages' serialised records, a page's own entry would give exactly its own records |
| PageTables.GivenOwnRecords | locutus/enterprs.c:106 | as written a page is given its own records if and only if its slice of the table equals the first page's |
| PageTables.SecondPageUnpatched | locutus/enterprs.c:106 | a two-page object whose first page has no records and whose second has any one: the second is not patched |
| Fixups.PageRunExists | locutus/enterprs.c:104-276 | every list of records that is affordable in that sense can be applied |
| Fixups.OrderDoesNotMatter | locutus/enterprs.c:257-274 | disjoint patches give the same memory in any order |
| Fixups.DisjointWritesLand | locutus/enterprs.c:83-102 | each is there afterwards and no other byte changes |
| Fixups.SiteReadsBack | locutus/enterprs.c:83-102 | for every kind, the field holds its value afterwards if and only if the value to store is nonzero or the field was zero |
| Fixups.SourceIsDone | locutus/enterprs.c:205-273 | the same for every source of every record of a whole page that no other patch touches |
| Fixups.PagePatched | locutus/enterprs.c:104-276 | over a whole page, thunks created on the way do not disturb the page, nor its patches the thunks, and import addresses are those the memo records |
| Fixups.PageFramed | locutus/enterprs.c:104-276 | outside the page, a byte changes only on a page that became taken for a thunk |
| Fixups.RecordOrderDoesNotMatter | locutus/enterprs.c:104-276 | two streams with the same disjoint patches leave the page the same, wherever thunks went |
| Fixups.CallSiteIsReady | locutus/enterprs.c:205-273 | the address of a self-relative import site's thunk holds the thunk for its pointer, and the site leads there if and only if that is not the next instruction or the displacement was zero |
| ImportCall.CallReturns | locutus/os2thunk.c:69-80 | a CALL that leads to a thunk comes back in four steps with EAX and memory from the host function and all else as before |
| ImportCall.ArgumentsReachHost | maverick/run386.c:965-972 | the k-th double word from the address the host is given is the k-th value from the last the caller pushed |
| ImportCall.CallGoesToThunk | locutus/enterprs.c:87-90 | the patched CALL's step leads to its thunk if and only if that is not the next instruction or the displacement was zero |
| ImportCall.PatchedCallReturns | locutus/enterprs.c:205-273 | the end-to-end theorem, from fixup record to return, for every call that goes to its thunk |
| FirstCall.FirstImportCall | locutus/os2mem.c:79-83 | the whole way from VMMInit, for a program of one import: its page allocated at any page from 64 KB to 8 MB, a one-record stream applied, and the call through the first thunk, at 8 MB, and back, for every host pointer, memory, processor and clean host; the call goes to its thunk if and only if that is not the next instruction or its displacement was zero |
| FirstCall.NextInstructionUnpatched | locutus/enterprs.c:87-90 | page 7FFh and offset FFCh, so that the thunk is the next instruction: with a nonzero displacement in the file the call misses it |
| Disassembler.Dis386 | iceman/dis.c:342-392 | the running size, prefixes included, comes to the length, and the running address to the targets, the agreement theorems are about |
| Decoders.ListingNeverSpins | iceman/dis.c:179-392 | on any text the listing comes to a length or runs off the text |
| Decoders.BodyConsumes | maverick/run386.c:1493-1520 | for any entry of any table: the bytes the interpreter takes behind the opcode, read off the text |
| Decoders.BodyDiffers | iceman/dis.c:61-155 | for any entry of any table: the two counts differ in operands changed by the reg field and in far pointers alone |
| Decoders.SameSizes | iceman/dis.c:342-392 | for the real tables, at the same sizes: the listing leaves out the TEST immediate of F6 and F7 and far pointers, and nothing else |
| Decoders.DecodersCompared | maverick/run386.c:1440-1520 | any prefixes: EIP moves as listed if and only if the instruction behind them has the same length at the sizes that occur and at the sizes they toggle |
| Decoders.LengthsDecide | iceman/dis.c:342-392 | the same as two lengths read off the text |
| Decoders.PlainTextAgrees | iceman/dis.c:342-392 | where nothing is toggled back the two lengths are equal but for what the listing leaves out |
| Decoders.SegmentOverrideMisleads | iceman/dis.c:359 | 26 8B 06 and a word in 16-bit code: listed as 3 bytes; the step always returns and takes 5 |
| Decoders.RepeatedSizeMisleads | iceman/dis.c:355 | 66 66 B8 and a dword in 16-bit code: listed as 5 bytes; the step always returns and takes 7 |
| Decoders.BranchTargetShown | iceman/dis.c:315-335 | a whole jump, call or loop behind any prefixes: where the step goes, and that the target listed is that place if and only if the displacements read at the two sizes lead to the same place |
| Decoders.SweepVisitsExactly | iceman/iceman.c:349-352 | the linear sweep over any text visits the boundaries of straight-line execution if and only if the lengths agree wherever it stands |
| Departures.WordAcrossTop | maverick/main.c:59-87 | a word read on the 20-bit bus is made of the bytes at its two addresses if and only if it does not cross the top or the host byte there equals the first |
| Departures.NegCarryInverted | maverick/run386.c:437-447 | NEG negates modulo the size, and JB after it holds if and only if the operand was zero |
| Departures.StepNeg | maverick/run386.c:1348-1406 | a whole step over F6 or F7 with reg field 3, any ModR/M operand, always returns, and so |
| Departures.CmpsComparesLowBytes | maverick/run386.c:812-826 | ZF after CMPS is right if and only if the elements are equal or their low bytes differ |
| Departures.StepCmpsb | common/i386.h:979 | the step over A6, the one CMPS entry, sets ZF if and only if the bytes are equal |
| Departures.StepRepXor | maverick/run386.c:1482-1487 | F3 31 and a register ModR/M byte in real mode runs as REPE CMPS over words |
| Departures.ScasComparesEax | maverick/run386.c:828-848 | ZF after SCASB is right unless AL matches under a nonzero rest of EAX; SCASW and SCASD leave it |
| Departures.CmpswStores | common/i386.h:980 | opcode A7h stores EAX |
| Departures.SibDecodes | maverick/run386.c:1205-1225 | a SIB byte is decoded if and only if it has no index or a scale field below 2 |

## Left out

- Host input and output: DOS and BIOS interrupts (a `HostService` outcome), port input (a function parameter), windows,
  timers, the debugger's pipe and breakpoints, file reading.
- The host function behind INT 80h is a function of EAX, the argument address and memory; it yields EAX and byte stores.
  Its calling sequence in assembly is not modelled.
- Far calls, jumps and returns, LES, LDS, OUT, IRET, INS, OUTS and protected mode: the code spins on them and so does
  the model.
- Host divide faults and undefined shift counts are one outcome, `HostUndefined`.
- Descriptor fields other than selector, base and the 32-bit flag, and the privilege level, which no operation reads.
- Import by name and by entry table exit the program; of internal fixups only the additive is written, as in the code.
- The loader's other steps: format check, page loading, import names, selector conversions.
- Releasing pages has no code, and committing them on the host is not modelled.
- Text written by the disassembler.
- PageFrames.FrameAllocator.FindFirstFreePage: the host memory behind the bitmap is a row of words of any length; a read
  beyond them is the outcome `OffBitmap`. What else that memory holds, which marking a page in it would change, is not
  modelled.
- PageFrames.RegionsAreDisjoint: with the count as written it is about the pages the scan saw free, all of a region but
  the last, because the last may be taken; with the repaired count it is about all pages.
- An import table whose count is 2^32 - 1, so that the index of its last entry wraps to the count itself.
- Fixups.StreamParsesBack: bits of the two leading bytes that the code ignores are serialised as zero.
- Fixups.FixupPage: parsing a record and resolving its import are separate steps, so that a record cut off by the end of
  the buffer is reported before its import is resolved.
- Decoders.PlainTextAgrees: not for REP before another prefix or a two-byte opcode, where the listing goes on to scan and
  the interpreter does not; `Decoders.LengthsDecide` covers these.
- Flat addresses from 512 MB on, the end of what the host reserves (locutus/os2mem.c:80): an access there fails on the
  host, while the model's flat bus has all 4 GB. A thunk's page there is the outcome `LeavesReservation`.
- StackLaws.FrameRestores: the stretches between frames are given by what they keep, not by their instructions.
- Run386.Processor.StepAgain: prefix recursion is cut off at 2^32 levels, where EIP has gone all the way round.
