# A verified model of the ARM simulator

The repository is an interpreter for a subset of ARMv5T over a byte-addressed memory of either byte order.
This project models it in Dafny in three layers and proves properties of each and of their composition.

* **Memory** (`Memory.dfy`, `MemoryLog.dfy`, `EndianDuality.dfy`): the byte buffer of memory.c as a class that is
  updated in place, proved against a value model. Any sequence of overlapping writes is a last-write-wins log; the
  two byte orders are one memory seen through two address maps.
* **Instructions** (`Words.dfy`, `Shifter.dfy`, `Status.dfy`, `Alu.dfy`, `Limbs.dfy`, `LogicalAdd.dfy`): the barrel
  shifter, the condition field, the sixteen data-processing opcodes with their flags, and carry chains over
  numbers of any length. Words are integers below 2^32; the bitwise operators are defined digit by digit.
* **Machine** (`Machine.dfy`, `Decoding.dfy`, `Effects.dfy`, `Processor.dfy`, `StoredProgram.dfy`, `EndianRuns.dfy`, `StraightLine.dfy`,
  `Pairs.dfy`, `LimbProgram.dfy`, `Countdown.dfy`, `BytePacking.dfy`): fetch, decode and execute as a transition
  system, what every word means by its bits and what every step does to registers and bytes, the class `Core` that
  performs it in place, and theorems about whole runs, down to the example programs in
  memory.
* `InsertionSort.dfy` is the example program insertion_sort.c.

## The text and the intent

As written, the simulator does not do what its own examples expect. The flag updates change a local copy of the CPSR and
never store it, so no run of any program ever changes a flag (`AsWritten.CpsrIsFrozen`). BL leaves in LR the address after
the next instruction, so the countdown of example1.s returns past its loop branch and ends after three steps, whatever it was
to count (`AsWritten.CountdownAsWritten`). A transfer uses the number of its base register for an address
(`AsWritten.AddressAgreement`). The comments in arm_instruction.c (lines 148-153, 177-182, 193-198), the recorded traces and
the ARM Architecture Reference Manual (ARM DDI 0100, sections A3.2, A4.1 and A5.1) all say what is meant, and the traces show
it happening. So there are two models:

* the main modules follow the text wherever it is consistent with those, and the intent where it is not;
* `AsWritten.dfy` follows the text of arm_instruction.c and of the functions it calls to the letter, and proves for each
  departure when it makes no difference. Indeterminate values (uninitialised locals, a missing return) are arbitrary there.

The departures, with the place of each in the source (arm_instruction.c unless named) and the lemma that says exactly when it
makes no difference:

* 303-333: flag updates do not reach the CPSR (`UpdateFlagAgreement`, `DataAgreement`); 336: the S bit is looked up in
  the CPSR instead of the instruction; 339-341: flags are only ever asked to be set, never cleared; 209, 219: MOV and MVN ask
  for no flags.
* 100-141, 170-193: sums are formed in 32 bits, so the test on bits 63..32 never sees a carry, and C and V are one test
  (`CompareAgreement`).
* 157: TEQ uses OR; 213, 219: BIC and MVN use the logical `!` (`ResultAgreement`).
* 513-580: a condition that fails returns no value; LS is tested with AND (`ConditionAgreement`). The default -1 counts as
  true and makes codes 14 and 15 pass; the main model keeps that.
* 65: `bits4_11` is never assigned; 359: `shift_imm` is assigned for LSL only (`OperandAgreement`); 353-356: shifts by a
  register use its number (`RegisterShiftAgreement`); 459: RRX takes the carry from a single bit (`RrxAgreement`).
* arm_branch_other.c 52-53: BL links to what R15 reads as, its own address plus 8 (`BranchAgreement`).
* arm_load_store.c 34-36, 120: addresses are formed from register numbers (`AddressAgreement`); 86-104: base plus or minus offset
  is returned whatever the addressing mode, and no base register is written back.
* memory.c 58, 67, 89: a read is guarded by `address <= size`, so reads near the end run past the buffer. The
  model keeps the guard and calls such reads `PastEnd`; `Memory.GuardAsWritten` says which they are. Reads compare the
  byte-order word with 0 and writes with 1; the model keeps both, and `Memory.WordRoundTrip` says what that costs.
* Examples/insertion_sort.c 12-18: the inner loop lacks `j--`. `InsertionSort.Sort` supplies it, `InsertionSort.Turn` does not.

Both models follow the text in what it does with the rest. A refused read yields -1, which a fetch executes (it is an
instruction that does nothing, and the PC moves on), and which LDR and LDRB load. A software interrupt has no case of its own, and
the handlers of status, multiple and coprocessor transfers only return an error that is discarded, so all these do nothing. The
stored PC is the next address to fetch; reading R15 adds 4 and clears bit 1, so an instruction sees its own address plus 8. A
word load from an unaligned address reads there and rotates. `ror` by 0 shifts by 32 in C, which is undefined; it is taken to be
the identity.

## Model

The cells cite UTF-8 files; for the others, which are in ISO 8859-1, they cite the call or the trace, and the third
column names the file and lines.

| member | source | states |
|---|---|---|
| Memory.JoinHalf | arm_simulator-1.4/memory.c:69-78 | or-ing a byte with another shifted by 8 is their base-256 value |
| Memory.JoinWord | arm_simulator-1.4/memory.c:91-104 | or-ing four shifted bytes is their base-256 value |
| Memory.WordRoundTrip | arm_simulator-1.4/memory.c:88-160 | a word written is read back if and only if the byte-order word is 0 or 1, or the word is its own byte reversal; otherwise the reversal is read |
| Memory.HalfRoundTrip | arm_simulator-1.4/memory.c:66-134 | the same for half words |
| Memory.GuardAsWritten | arm_simulator-1.4/memory.c:57-112 | exactly which addresses the read guards admit although the read leaves the buffer |
| Memory.Memory.constructor | arm_simulator-1.4/memory.c:33-44 | a fresh buffer of the given size and byte order |
| Memory.Memory.GetSize | arm_simulator-1.4/memory.c:46-50 | the number of bytes held |
| Memory.Memory.ReadByte | arm_simulator-1.4/memory.c:57-64 | the in-place read is the value model's, with its refusals |
| Memory.Memory.ReadHalf | arm_simulator-1.4/memory.c:66-86 | the in-place read is the value model's, with its refusals |
| Memory.Memory.ReadWord | arm_simulator-1.4/memory.c:88-112 | the in-place read is the value model's, with its refusals |
| Memory.Memory.WriteByte | arm_simulator-1.4/memory.c:114-117 | the buffer becomes the value model's, byte order kept |
| Memory.Memory.WriteHalf | arm_simulator-1.4/memory.c:119-134 | two byte writes give the value model's half-word write |
| Memory.Memory.WriteWord | arm_simulator-1.4/memory.c:136-160 | four byte assignments give the value model's word write |
| MemoryLog.LastWriteWins | arm_simulator-1.4/memory.c:114-160 | after any in-bounds writes of mixed width a byte is the one the last write covering it put there, or its old value if none did |
| MemoryLog.LoggedIsStored | arm_simulator-1.4/memory.c:114-160 | looking the log up from its end gives the stored byte |
| MemoryLog.ReadsComeFromTheLog | arm_simulator-1.4/memory.c:57-160 | every byte, half and word read after a log is assembled from the bytes the log left, in either byte order |
| MemoryLog.ReadsAreNumbers | arm_simulator-1.4/memory.c:57-112 | every read inside the memory yields the base-256 number of its bytes, in the order of the memory |
| EndianDuality.AcrossIsXor | arm_simulator-1.4/memory.c:66-160 | the address map between the byte orders is XOR with 3, 2 or 0 |
| EndianDuality.PerformIsLogged | arm_simulator-1.4/memory.c:57-160 | an access is that of the memory: a load leaves it and yields the number of its bytes, a store puts its digits where it covers and leaves the other bytes |
| EndianDuality.PerformAllByOne | arm_simulator-1.4/memory.c:57-160 | in a run access i meets the memory that the first i accesses leave |
| EndianDuality.DualStep | arm_simulator-1.4/memory.c:57-160 | one aligned access at a, and its mirror image, return the same value and keep BE[a] = LE[a XOR 3] |
| EndianDuality.DualRun | arm_simulator-1.4/memory.c:57-160 | the same over any sequence of aligned accesses of mixed width |
| EndianDuality.DualMeansEqualWords | arm_simulator-1.4/memory.c:88-112 | that relation is equality of all aligned words, in both directions |
| Shifter.RegisterShiftIsIterated | arm_simulator-1.4/arm_instruction.c:370-494 | every shift by 0..255 is that many one-bit shifts through the carry, operand and carry-out, including 32 and beyond |
| Shifter.ImmediateShiftIsIterated | arm_simulator-1.4/arm_instruction.c:357-478 | the same for the immediate encodings, with LSR #0 and ASR #0 meaning 32, and ROR #0 rotating the 33 bits of carry and word by one place |
| Shifter.Asr | arm_simulator-1.4/arm_instruction.c:432-444 | the `asr` called here (util.c 26-28): or-ing ones above the shifted word adds them |
| Shifter.RorSwaps | arm_simulator-1.4/arm_instruction.c:474-491 | the `ror` called here (util.c 30-32): a rotation exchanges the low n bits with the rest |
| Shifter.ImmediateOperandIsIterated | arm_simulator-1.4/arm_instruction.c:75-84 | the rotated eight-bit immediate and its carry-out are the same one-bit machine |
| Shifter.ShiftMeaning | arm_simulator-1.4/arm_instruction.c:357-454 | LSL multiplies modulo 2^32, LSR divides, ASR divides the signed value rounding down, at every amount |
| Shifter.RorComposes | arm_simulator-1.4/arm_instruction.c:480-494 | rotations add their amounts modulo 32 |
| Shifter.RrxCycle | arm_simulator-1.4/arm_instruction.c:456-478 | RRX rotates 33 bits: 33 times is the identity on word and carry, n times exchanges the low n bits with the rest |
| Status.FlagsRoundTrip | arm_simulator-1.4/arm_instruction.c:303-333 | the four flag updates set exactly the flags asked for and no bit below 28 |
| Status.OddCodesNegate | arm_simulator-1.4/arm_instruction.c:513-580 | each odd condition code below 14 is the negation of the code before it |
| Alu.ArithmeticIsExact | arm_simulator-1.4/arm_instruction.c:99-140 | the eight arithmetic opcodes against exact integers: result modulo 2^32, C for the unsigned value, V for the signed one, N and V together its sign |
| Alu.OneAdder | arm_simulator-1.4/arm_instruction.c:99-199 | all eight are one adder on possibly complemented operands, result and flags |
| Alu.LogicalOpcodes | arm_simulator-1.4/arm_instruction.c:87-97 | the other eight act bit by bit, take C from the shifter and leave V |
| Alu.CompareDecides | arm_simulator-1.4/arm_instruction.c:169-183 | after CMP ten codes decide the unsigned and signed comparisons of the operands, MI and PL the sign of the difference modulo 2^32, VS and VC whether that is the signed difference |
| Alu.CmnAgainstCmp | arm_simulator-1.4/arm_instruction.c:169-199 | CMN b and CMP -b agree on N and Z, differ on C exactly for b = 0 and on V exactly for b = 2^31 |
| Limbs.AdditionOfLimbs | arm_simulator-1.4/arm_instruction.c:111-122 | ADDS then ADCS over any number of limbs: exact sum, carry out, and V exactly for signed overflow of the whole |
| Limbs.SubtractionOfLimbs | arm_simulator-1.4/arm_instruction.c:99-131 | SUBS then SBCS: exact difference and borrow, V, and HS, LO, GE, LT comparing the whole numbers |
| Limbs.EqualityAfterChain | arm_simulator-1.4/arm_instruction.c:124-131 | after SUBS and SBCS EQ passes exactly if the difference modulo the radix is below that of one limb less, and agrees with equality of the numbers exactly if that difference is 0 or not so small |
| Limbs.EqualityIsNotDecided | arm_simulator-1.4/arm_instruction.c:124-131 | two different numbers on which EQ passes |
| Limbs.HalvingOfLimbs | arm_simulator-1.4/arm_instruction.c:390-478 | LSR #1 on the top limb and RRX down the rest halve the number and leave its parity in C |
| Limbs.HalvingUndone | arm_simulator-1.4/arm_instruction.c:117-122 | ADCS of every limb with itself from that carry restores the number |
| LogicalAdd.AdditionFromLogic | arm_simulator-1.4/arm_instruction.c:87-115 | 32 rounds of EOR and AND, LSL #1 end with no carries and the result of ADD; after k rounds k low bits are clear |
| Machine.DecodeEncode | arm_simulator-1.4/arm_instruction.c:46-57 | field extraction recovers every well-formed instruction from its encoding |
| Decoding.EncodeDecode | arm_simulator-1.4/arm_instruction.c:46-57 | and encoding restores every word that decodes to a modelled instruction, up to bit 7 of a shift by a register |
| Decoding.DecodeByBits | arm_simulator-1.4/arm_instruction.c:54-262 | for every word: data processing exactly if bits 27..26 are 00 and 24..23, 20 are not 10, 0; a branch exactly if 27..25 are 101; an immediate-offset transfer exactly if 27..25 are 010 with bit 24 set and bit 21 clear |
| Decoding.DataByBits | arm_simulator-1.4/arm_instruction.c:46-53 | condition, S bit, registers and opcode of every data-processing word, the sixteen opcodes by number |
| Decoding.OperandByBits | arm_simulator-1.4/arm_instruction.c:64-84 | the operand forms by bits 25 and 4, their fields, and the four kinds of shift by number |
| Decoding.TransferByBits | arm_simulator-1.4/arm_instruction.c:230-237 | condition, direction, width, sign, registers and offset of every immediate-offset transfer |
| Decoding.BranchByBits | arm_simulator-1.4/arm_instruction.c:246-251 | (arm_branch_other.c 31-45) condition, link bit and offset of every branch |
| Machine.DropBit1 | arm_simulator-1.4/arm_instruction.c:50 | the mask on R15 in the register read called here (arm_core.c 77) clears bit 1 and nothing else |
| Machine.ReadPcIsNext | trace_example1:15-17 | (arm_core.c 68-81) reading R15 is the fetch address plus 4, whatever R15 holds |
| Machine.FetchMoves | trace_example1:13-17 | (arm_core.c 129-139) a fetch moves the next fetch by 4, and the instruction reads its own address plus 8 |
| Effects.StepIdles | arm_simulator-1.4/arm_instruction.c:55-61 | whatever bits 27..25 being 100, 110 or 111 or a status transfer holds, the step moves the PC and nothing else |
| Effects.StepSkips | arm_simulator-1.4/arm_instruction.c:63 | so does an instruction whose condition fails |
| Effects.StepBeyondMemory | arm_simulator-1.4/arm_instruction.c:45 | so does a fetch that the memory refuses |
| Effects.StepStops | arm_simulator-1.4/arm_instruction.c:54-262 | the steps the model does not take, exactly |
| Effects.StepBranches | trace_example1:14-19 | from every address and for every offset: target, and LR holding the next address |
| Effects.OperandIsIterated | arm_simulator-1.4/arm_instruction.c:64-84 | in every state the operand and carry-out of an instruction, immediate or shifted by an immediate or by the low byte of a register, are that many one-bit shifts through the carry of the CPSR |
| Effects.StepProcesses | arm_simulator-1.4/arm_instruction.c:62-227 | a passed data-processing word leaves the result in its destination and the flags in the CPSR and changes nothing else; its operands are the stored registers, R15 the instruction's address plus 8 |
| Effects.StepTransfers | arm_simulator-1.4/arm_instruction.c:230-301 | a passed transfer word at register plus or minus offset: the exact bytes stored, the exact value loaded with its rotation, all ones beyond the memory, and when it stops |
| Effects.LiteralLoad | trace_example3:7-13 | LDR from the PC fetched at a loads the word at a plus 8 plus or minus the offset |
| Processor.Core.constructor | trace_example1:1-6 | (arm_core.c 38-49) a core around a memory, in the mode of the reset exception |
| Processor.Core.ReadRegister | arm_simulator-1.4/arm_instruction.c:50 | the register read called here (arm_core.c 73-81): R15 reads as the stored PC plus 4 with bit 1 cleared, the others as they are |
| Processor.Core.WriteRegister | arm_simulator-1.4/arm_instruction.c:89 | the register write called here (arm_core.c 105-108): one register changes |
| Processor.Core.Fetch | arm_simulator-1.4/arm_instruction.c:45 | the fetch called here (arm_core.c 129-139): the word at the stored PC; the PC moves past it, also when the memory refuses the read |
| Processor.Core.UpdateFlag | arm_simulator-1.4/arm_instruction.c:303-333 | bit k of the CPSR takes the value, every other bit, the registers and the memory stay |
| Processor.Core.UpdateFlags | arm_simulator-1.4/arm_instruction.c:142-153 | the four updates give the CPSR with exactly those flags |
| Processor.Core.ShifterOperand | arm_simulator-1.4/arm_instruction.c:64-84 | operand and carry-out of the immediate and the shifted register forms |
| Processor.Core.DataProcessing | arm_simulator-1.4/arm_instruction.c:85-221 | destination and flags after a passed data-processing instruction |
| Processor.Core.LoadStoreByteOrWord | arm_simulator-1.4/arm_instruction.c:273-301 | the four transfers, the rotation of a word load, the R15 case, and the -1 loaded when the memory refuses; it halts only where the access is undefined |
| Processor.Core.BranchTo | trace_example1:14-19 | PC plus 8 plus four times the signed offset; LR holds the next address |
| Processor.Core.ExecuteInstruction | arm_simulator-1.4/arm_instruction.c:54-262 | the object performs the transition of the decoded instruction |
| Processor.Core.StepOnce | arm_simulator-1.4/arm_instruction.c:264-271 | a step of the object is a step of the transition system |
| StoredProgram.InstallPutsCode | arm_simulator-1.4/memory.c:136-160 | word writes of a program put it where fetches read it and change no other byte |
| StoredProgram.ExecuteMemory | arm_simulator-1.4/arm_instruction.c:54-301 | a store leaves the digits of its register, in the order of the memory, on exactly its own bytes; an instruction changes no other byte, and never the size or byte order |
| StoredProgram.StoredProgramRefines | arm_simulator-1.4/arm_instruction.c:41-271 | k steps of fetch, decode and execute are k steps over the instruction list, for every k, if no store hits the code, which still reads as the list |
| StoredProgram.InstalledProgramRefines | arm_simulator-1.4/arm_instruction.c:41-271 | the same from the installation of the program, in either byte order |
| EndianRuns.EndianLockStep | arm_simulator-1.4/arm_instruction.c:41-301 | machines of opposite byte order with equal aligned words keep equal registers, CPSR and aligned words for any number of word-aligned steps, or stop alike |
| EndianRuns.LoadingKeepsAlike | arm_simulator-1.4/memory.c:136-160 | loading the same program keeps them equal |
| EndianRuns.ByteLoadsTellOrders | arm_simulator-1.4/arm_instruction.c:292-297 | a byte load at a finds what the other machine has at a XOR 3, another address |
| StraightLine.StraightLineFrame | arm_simulator-1.4/arm_instruction.c:62-227 | what a run of data-processing instructions can change: PC by 4 a step, only named destinations, CPSR only through the S bit, V only through arithmetic, bits 27..0 and memory never |
| Pairs.WordStoredIsLoaded | arm_simulator-1.4/arm_instruction.c:273-291 | STR then LDR at the same address, reached by adding or subtracting an offset: the word comes back, rotated if and as far as unaligned, R15 without bit 0; nothing else moves |
| Pairs.ByteStoredIsLoaded | arm_simulator-1.4/arm_instruction.c:278-297 | STRB then LDRB: the low byte comes back, nothing else moves |
| Pairs.CompareAndBranch | arm_simulator-1.4/arm_instruction.c:169-251 | CMP then a conditional branch branches exactly if the two registers stand in the relation named, signed or unsigned |
| LimbProgram.StoredLimbProgram | arm_simulator-1.4/arm_instruction.c:99-131 | the limb chains as programs in memory on the whole machine, with C, V and the comparisons, for every limb count the registers hold |
| Countdown.ProgramWords | trace_example1:8-37 | the modelled program is the assembled one |
| Countdown.CountdownTerminates | arm_simulator-1.4/Examples/example1.s:3-13 | from loop with any r0 the stored program first reaches end after exactly 4 r0 steps (4 * 2^32 for 0), with the final registers, flags and memory |
| Countdown.MainTerminates | arm_simulator-1.4/Examples/example1.s:7-13 | the same from main with any immediate: end is first reached one step later |
| BytePacking.ExampleWords | trace_example2:8-86 | the modelled program on the example's bytes is the assembled one |
| BytePacking.FoldRuns | arm_simulator-1.4/Examples/example2.s:4-10 | folding any bytes leaves their base-256 value modulo 2^32 in r0 |
| BytePacking.PackedBytesReadBack | arm_simulator-1.4/Examples/example2.s:12-15 | the four bytes of the stored word are the last four bytes in order, or reversed, by byte order |
| BytePacking.PackingRoundTrip | arm_simulator-1.4/Examples/example2.s:3-16 | the whole stored program on any bytes, in either byte order: r2 and r3 hold the bytes at the ends of the word |
| InsertionSort.Sort | arm_simulator-1.4/Examples/insertion_sort.c:10-19 | with the decrement supplied: a sorted permutation, with as many swaps as the input has inversions |
| InsertionSort.SwapRemovesOne | arm_simulator-1.4/Examples/insertion_sort.c:13-17 | swapping neighbours out of order removes exactly one inversion |
| InsertionSort.SortedHasNone | arm_simulator-1.4/Examples/insertion_sort.c:10-19 | a sorted array has no inversions |
| InsertionSort.InnerLoopNeverExits | arm_simulator-1.4/Examples/insertion_sort.c:12-18 | as written the inner loop entered with j > 0 is never left and changes nothing after its first turn |
| InsertionSort.TurnOrdersPair | arm_simulator-1.4/Examples/insertion_sort.c:14-18 | that turn leaves the pair at j in order, the same two elements, untouched if they were in order, and no other place changes |
| InsertionSort.WrittenLeaves | arm_simulator-1.4/Examples/insertion_sort.c:10-19 | from the fourth turn on the program as written stands at i = j = 1 with the first pair in order and the rest as it was |
| InsertionSort.MainEndsAsWritten | arm_simulator-1.4/Examples/insertion_sort.c:10-19 | as written the program ends if and only if the array has at most one element |
| AsWritten.ConditionAgreement | arm_simulator-1.4/arm_instruction.c:513-580 | no code returns 0, one returns at all exactly if the condition passes, save LS with C = Z, and the caller goes on then and otherwise by chance |
| AsWritten.UpdateFlagAgreement | arm_simulator-1.4/arm_instruction.c:303-333 | an update leaves the CPSR alone, so it does what it is for exactly if the flag already has the value |
| AsWritten.ResultAgreement | arm_simulator-1.4/arm_instruction.c:156-219 | TEQ, BIC and MVN as written give the intended result exactly on the operands named |
| AsWritten.WrittenResults | arm_simulator-1.4/arm_instruction.c:156-219 | the results as written by value: TEQ the bitwise or, BIC at most bit 0, MVN 1 or 0, the others as meant |
| AsWritten.CompareAgreement | arm_simulator-1.4/arm_instruction.c:169-193 | CMP and CMN ask for N and Z of the result and for the C and V already there, which is right exactly if those are |
| AsWritten.RrxAgreement | arm_simulator-1.4/arm_instruction.c:456-471 | RRX as written is RRX exactly if C is clear |
| AsWritten.OperandAgreement | arm_simulator-1.4/arm_instruction.c:64-84 | the operands that come out right in every state and whatever is indeterminate are exactly the immediates and unshifted registers; once bits4_11 reads as set, exactly these and LSL by an immediate |
| AsWritten.WrittenOperand | arm_simulator-1.4/arm_instruction.c:348-494 | what every operand form yields as written, as one-bit shifts, and which forms are indeterminate |
| AsWritten.RegisterShiftAgreement | arm_simulator-1.4/arm_instruction.c:349-494 | a shift by the number of a register is the shift by its contents, for every word and carry, exactly if number and low byte are equal or both turn a rotation alike |
| AsWritten.BranchAgreement | arm_simulator-1.4/arm_instruction.c:246-251 | the branch called here (arm_branch_other.c 31-60): target and LR for every offset; the target is always the intended one, the whole effect exactly for B, never for BL |
| AsWritten.AddressAgreement | arm_simulator-1.4/arm_instruction.c:230-239 | the address computed here (arm_load_store.c 32-122): an immediate-offset transfer uses the intended address exactly if its base register reads as its own number |
| AsWritten.AddressByBits | arm_simulator-1.4/arm_instruction.c:230-239 | the address computed here (arm_load_store.c 32-155) for every word: the number of the base register plus or minus the offset, or the number of the index register times or over a power of two |
| AsWritten.TransfersWritten | arm_simulator-1.4/arm_instruction.c:230-301 | a taken transfer as written, in every addressing mode: the register of bits 15..12 and that address exchange the exact bytes, and nothing else changes |
| AsWritten.BranchesWritten | arm_simulator-1.4/arm_instruction.c:246-251 | a taken branch as written, for every word: target and LR |
| AsWritten.WrittenIdles | arm_simulator-1.4/arm_instruction.c:54-262 | words without a handler, and words whose condition is not taken, do nothing |
| AsWritten.StepsWritten | arm_simulator-1.4/arm_instruction.c:41-45 | a step as written executes the fetched word, and moves only the PC if the fetch is refused |
| AsWritten.DataAgreement | arm_simulator-1.4/arm_instruction.c:62-221 | a data-processing instruction whose condition returns has its intended effect as written exactly if the results coincide and the flags are already set; the results coincide, for the operands that come out right, exactly where the operands hide the wrong operator |
| AsWritten.CpsrIsFrozen | arm_simulator-1.4/arm_instruction.c:303-346 | no run of any program as written changes the CPSR |
| AsWritten.StopsOnlyOutside | arm_simulator-1.4/arm_instruction.c:41-301 | a step as written stops exactly for an access that C leaves undefined: a read past the end or a store outside the memory |
| AsWritten.CountdownAsWritten | arm_simulator-1.4/Examples/example1.s:3-13 | as written, whatever r0, the flags and the indeterminate values are, end is first reached after exactly three steps, with r0 decremented once and LR at end |
| AsWritten.CountdownResult | arm_simulator-1.4/Examples/example1.s:3-13 | that r0 is the intended one exactly if it started as 1, and LR never is |

## Left out

- Machine.Execute: stops as `NotModelled` on transfers with another addressing mode than an immediate offset without write-back,
  since the text computes neither their addresses nor their write-back as meant, and on S-bit writes to R15, which are meant to
  copy the SPSR. AsWritten.ExecuteWritten executes both as the text does.
- Machine.Step: stops as `BadAccess` on what C leaves undefined, a read past the end of the buffer or a store outside it.
- EndianRuns.EndianLockStep: speaks of word-aligned transfers only, since byte transfers and the rotation of an unaligned
  load do tell the byte orders apart.
- AsWritten.DataAgreement: speaks of conditions that return; which do is the subject of AsWritten.ConditionAgreement.
- The SPSR (register 17 of registers.c), processor modes and exceptions other than the CPSR that reset leaves.
- memory_create when an allocation fails, memory_destroy, and memories of 2^32 bytes or more, where `address + 1` wraps.
- The gdb server, its sockets and packet scanner, send_irq and all tracing output.
- example3.s and example4.s as whole programs: their literal loads are Effects.LiteralLoad, their LDM does nothing here.
