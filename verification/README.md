# DreamcastRecomp: verified models of its processors and of the code around them

The repository recompiles Dreamcast programs to C++ and keeps two processor cores beside the
generated code: an SH-4 interpreter for everything that was not recompiled, and an ARM7 core for the
sound processor. This project models both cores instruction by instruction and proves what sequences
of instructions, whole functions and whole runs compute. Around them it models the recompiled
function that the repository ships together with its machine code, the literal cache of recompiled
code, the heap that replaces the guest's `malloc`, the plugin lookup that several threads share, the
assembler that produces the sample program, and two tools that read and draw memory-unit images.

`dafny verify dfyconfig.toml` checks everything.

| files | what they hold |
|---|---|
| `Words`, `Bits`, `Limbs`, `Options`, `Memory` | 32-bit words on integers, their binary digits, multi-word numbers, guest memory behind an address decoder |
| `Sh4Isa`, `Sh4Core`, `Sh4Program` | the meaning of SH-4 instructions; the interpreter's `exec_one` on a mutable context, proved equal to it; straight-line code |
| `Sh4Division`, `Sh4Mac`, `Sh4Chains` | what the division, the multiply-accumulate and the multi-word sequences compute |
| `Sh4Laws`, `Sh4Access`, `Sh4Flow` | laws across single instructions: arithmetic and comparisons, loads, stores and stacks, branches, calls and counted loops |
| `Sh4Interp`, `InterpreterLoop` | the run loop as a transition function, and as the loop it is, with cycle accounting |
| `AddressBusProgram`, `RecompiledFunction`, `TranslationValidation`, `AddressBusRuns`, `AddressBusTest` | `_memTestAddressBus` as bytes and as generated code: the same states and cycles, also through the run loop, and an exact test |
| `Arm7Isa`, `Arm7Step`, `Arm7Core` | the ARM7 on one physical register file; the live file with saved banks, proved to represent it |
| `Arm7Encoding`, `Arm7Shifter`, `Arm7Data`, `Arm7Access`, `Arm7Blocks`, `Arm7Flow`, `Arm7Status` | instruction words by fields, and what each executed instruction computes, in integers and binary digits |
| `Arm7Invariants`, `Arm7Isolation`, `Arm7Exceptions`, `Arm7Transfers`, `Arm7Flags`, `Arm7Chains` | what every step keeps, which registers it can reach, nested interrupts, block transfers, flags, multi-word arithmetic |
| `LiteralPages`, `GuestHeap` | baked literals against RAM; the heap |
| `PluginHost`, `PluginThreads` | the plugin registries and the per-thread cache, alone and under concurrency |
| `Assembler`, `AssemblerMeaning` | the two-pass assembler, and what its output does on the processor |
| `VmuFat`, `VmuLines` | the file-chain audit and the line drawing of the memory-unit tools |

Where the C++ or Python updates an object, the model is a class with the same fields and its methods
are proved against functions on an abstract value; the theorems are about those functions.

## What the code does that its comments do not say

* `MAC.L` in saturating mode adds modulo 2^64 before it clamps. From an accumulator outside 48 bits
  the clamp can take the wrong end (`Sh4Mac.ClampAtTheWrongEnd`); `Sh4Mac.SaturationExact` says exactly
  when it does not.
* `sub_with_flags` computes V from `b + borrow` wrapped to 32 bits, so V is inverted exactly for
  `b = 0x7FFFFFFF` with a borrow (`Arm7Flags.SubOverflow`).
* `dc_load_bytes` and `dc_zero_bytes` do not mark literal pages dirty. A literal on a clean page that
  they overwrite stays at its baked value: `LiteralPages.ZeroingLeavesStaleLiteral` is the instance,
  `LiteralPages.BulkExact` and `LiteralPages.RunExact` the exact condition.
* An allocation with alignment 2^31 returns 0, and unless its size is beyond the end of the heap it
  moves the heap to the bottom of the address space (`GuestHeap.HugeAlignmentExact`).
* Interrupting Thumb code loses bit 1 of the PC on return (`Arm7Exceptions.ThumbLosesBitOne`, and
  `Arm7Exceptions.ReturnAddressExact` for the condition).
* Between the erasure and the generation bump of a plugin shutdown, another thread's cache still
  answers for the erased registry: `PluginThreads.WindowReached` is a run that gets there, and
  `PluginThreads.CacheAgreesExactly` says that this is the only window. Lookups are nevertheless
  linearizable when a shutdown counts from its bump on (`PluginThreads.LookupsLinearize`).
* The address-bus test reports a fault by its address, so a faulty address 0 reads as success
  (`AddressBusTest.ZeroAddressPasses`). For a given base it is exact over every decoder if and only if
  no address under test is 0 (`AddressBusTest.ExactForEveryDecoder`).

## Model

| member | source | states |
|---|---|---|
| Sh4Core.Core.ExecOne | runtime/dc_sh4_interp.cpp:447-927 | for every opcode of the modelled set, in or out of a delay slot, the interpreter's code leaves exactly the registers, status bits, PR, MAC and memory that the instruction's arithmetic meaning gives, and signals the same transfer |
| Sh4Core.Core.ExecDiv1 | runtime/dc_sh4_interp.cpp:604-624 | the three-way XOR update of Q and the two borrow tests are one non-restoring step on the 33-bit number Q:Rn, including Rn = Rm |
| Sh4Division.Div1SameRegister | runtime/dc_sh4_interp.cpp:604-624 | DIV1 Rn,Rn takes the shifted word from itself, or adds it: Rn becomes zero or is shifted once more, with Q and T in integers |
| Sh4Core.ShiftAndMove | runtime/dc_sh4_interp.cpp:604-624 | shift, add or subtract and the carry tests together equal one exact 33-bit division step |
| Sh4Core.Core.ExecDiv0s | runtime/dc_sh4_interp.cpp:571-576 | Q, M and T become the two signs and their difference |
| Sh4Core.Core.ExecAddc | runtime/dc_sh4_interp.cpp:658-665 | the two-stage comparison of sums is the carry of the three-operand sum |
| Sh4Core.CarryOut | runtime/dc_sh4_interp.cpp:658-665 | either wrapped partial sum being smaller is the same as the full sum reaching 2^32 |
| Sh4Core.Core.ExecSubc | runtime/dc_sh4_interp.cpp:633-640 | difference and borrow of the three-operand subtraction |
| Sh4Core.BorrowOut | runtime/dc_sh4_interp.cpp:633-640 | either wrapped partial difference being larger is the same as the full difference being negative |
| Sh4Core.Core.ExecNegc | runtime/dc_sh4_interp.cpp:816-821 | zero minus operand minus T, with the borrow |
| Sh4Core.Core.ExecRotcl | runtime/dc_sh4_interp.cpp:687 | the 33-bit rotation through T |
| Sh4Core.Core.ExecMacL | runtime/dc_sh4_interp.cpp:538-554 | both operands post-increment; the 64-bit sum wraps and, with S, is clamped to 48 bits |
| Sh4Core.Core.ExecMacW | runtime/dc_sh4_interp.cpp:775-792 | 16-bit operands; with S the 32-bit sum is clamped and MACH gains bit 0 on saturation |
| Sh4Core.AccumulateW | runtime/dc_sh4_interp.cpp:775-792 | the saturating and the wide accumulation, as integers |
| Sh4Core.MacBits | runtime/dc_sh4_interp.cpp:538-554 | packing MACH:MACL as a 64-bit value and splitting it again loses nothing |
| Sh4Division.UnsignedDivisionCorrect | runtime/dc_sh4_interp.cpp:507-507 | DIV0U and 32 rounds of ROTCL and DIV1 and a last ROTCL: for all R1 < R0 the quotient of the 64-bit dividend, the remainder up to one addition, nothing else changed, for any three distinct registers |
| Sh4Division.SignedDivisionCorrect | runtime/dc_sh4_interp.cpp:571-624 | the compiler's signed sequence leaves the quotient truncated toward zero for every dividend and every nonzero divisor (-2^31 / -1 wraps), nothing but its registers and the status bits changed |
| Sh4Division.AfterRounds | runtime/dc_sh4_interp.cpp:604-687 | after 32 rounds dividend = divisor * quotient bits + remainder, with the remainder in [-|D|, |D|) |
| Sh4Division.RoundRemainder | runtime/dc_sh4_interp.cpp:604-624 | one round takes the signed partial remainder w to 2w + t - D or 2w + t + D and stays in range |
| Sh4Division.StepStaysInRange | runtime/dc_sh4_interp.cpp:604-624 | the invariant range of non-restoring division |
| Sh4Division.RoundsDigits | runtime/dc_sh4_interp.cpp:604-687 | the bits collected in the low register are the signed digits of the quotient so far |
| Sh4Division.DigitRecurrence | runtime/dc_sh4_interp.cpp:604-687 | appending a digit doubles the quotient and adds or subtracts one |
| Sh4Division.UnsignedQuotient | runtime/dc_sh4_interp.cpp:604-624 | a quotient with a remainder in [-D, D) determines floor quotient and remainder |
| Sh4Division.SignedQuotient | runtime/dc_sh4_interp.cpp:658-665 | from the one's-complement dividend's digits and the last carry to truncation toward zero |
| Sh4Program.RunConcat | runtime/dc_sh4_interp.cpp:1204-1221 | running concatenated straight-line code is running its parts in order |
| Sh4Mac.MacLDotProduct | runtime/dc_sh4_interp.cpp:538-554 | k times MAC.L over arrays: the start plus the dot product modulo 2^64, or with S the step-wise 48-bit clamped sum, always within 48 bits and exact if no step overflows |
| Sh4Mac.MacWDotProduct | runtime/dc_sh4_interp.cpp:775-792 | k times MAC.W: the same modulo 2^64, or with S the 32-bit clamped sum with MACH bit 0 set exactly if it was set or some step saturated |
| Sh4Mac.SaturationExact | runtime/dc_sh4_interp.cpp:538-554 | MAC.L with S clamps the true sum if and only if that sum fits in 64 bits |
| Sh4Mac.ClampAtTheWrongEnd | runtime/dc_sh4_interp.cpp:538-554 | from 2^63 - 1, adding 1 gives the lower bound of 48 bits |
| Sh4Mac.SaturateStaysInRange | runtime/dc_sh4_interp.cpp:538-554 | the clamped sum never leaves its range |
| Sh4Mac.SaturateExact | runtime/dc_sh4_interp.cpp:538-554 | without overflow the clamped sum is the sum |
| Sh4Mac.MacRoundTrip | runtime/dc_sh4_interp.cpp:538-554 | splitting a signed 64-bit value over MACH:MACL reads back |
| Sh4Mac.MacLAdjacent | runtime/dc_sh4_interp.cpp:538-554 | with one register for both operands the second comes from the next word |
| Sh4Chains.AddcChainExact | runtime/dc_sh4_interp.cpp:658-665 | CLRT and ADDC over register pairs of any number of limbs, with any steps in between that leave T alone, write the limbs of the exact sum and leave its carry in T |
| Sh4Chains.SubcChainExact | runtime/dc_sh4_interp.cpp:633-640 | CLRT and SUBC: the exact difference, with T set exactly when the first number is smaller |
| Sh4Chains.NegcChainExact | runtime/dc_sh4_interp.cpp:816-821 | CLRT and NEGC: the exact negation, with T set exactly when the number is not zero |
| Sh4Chains.LimbExact | runtime/dc_sh4_interp.cpp:633-821 | one executed ADDC, SUBC or NEGC as an equation in integers, with nothing but Rn and T changed |
| Sh4Laws.AddSub | runtime/dc_sh4_interp.cpp:632-650 | ADD and SUB are congruent to sum and difference modulo 2^32 and change nothing else |
| Sh4Laws.MoveNegate | runtime/dc_sh4_interp.cpp:809-822 | MOV and NEG, and negating twice |
| Sh4Laws.AndTest | runtime/dc_sh4_interp.cpp:577-578 | AND digit by digit; TST says that no digit is set in both |
| Sh4Laws.Multiply | runtime/dc_sh4_interp.cpp:493-493 | MUL.L is the product modulo 2^32, of the unsigned and of the signed readings |
| Sh4Laws.Immediates | runtime/dc_sh4_interp.cpp:831-916 | MOV, ADD and CMP/EQ with a signed eight-bit immediate |
| Sh4Laws.ComparesUnsigned | runtime/dc_sh4_interp.cpp:600-630 | CMP/EQ, CMP/HS and CMP/HI decide their relation on unsigned words and change T only |
| Sh4Laws.ComparesSigned | runtime/dc_sh4_interp.cpp:600-631 | CMP/GE and CMP/GT on signed words |
| Sh4Laws.ComparesWithZero | runtime/dc_sh4_interp.cpp:696-697 | CMP/PZ and CMP/PL |
| Sh4Laws.BorrowIsComparison | runtime/dc_sh4_interp.cpp:602-640 | after CLRT the borrow of SUBC is the negated answer of CMP/HS |
| Sh4Laws.ShiftsLeft | runtime/dc_sh4_interp.cpp:681-687 | SHLL, SHAL and ROTCL: Rn and T together are twice the word plus what comes in |
| Sh4Laws.ShiftsRight | runtime/dc_sh4_interp.cpp:682-688 | SHLR and ROTCR: twice the result plus the digit in T is the word with what comes in on top |
| Sh4Laws.RotationsUndo | runtime/dc_sh4_interp.cpp:687-688 | ROTCR undoes ROTCL and ROTCL undoes ROTCR, T included |
| Sh4Laws.TwoWordShifts | runtime/dc_sh4_interp.cpp:681-688 | SHLR on the high word and ROTCR on the low one halve the two-word number, the lost digit in T; SHLL and ROTCL double it |
| Sh4Access.StoreLoad | runtime/dc_sh4_interp.cpp:492-808 | a word stored through a direct, displaced or indexed form is the word loaded through any form that leads to the same address |
| Sh4Access.PushPop | runtime/dc_sh4_interp.cpp:570-812 | MOV.L Rm,@-Rs and MOV.L @Rs+,Rk: the register arrives and the stack pointer is back, also when one of them is the stack pointer |
| Sh4Access.PrSurvives | runtime/dc_sh4_interp.cpp:707-720 | STS.L PR,@-Rn and a later LDS.L @Rn+,PR restore PR and the stack pointer, whatever happened to PR in between |
| Sh4Access.LiteralAddresses | runtime/dc_sh4_interp.cpp:891-911 | MOVA gives the aligned address that the PC-relative MOV.L loads from |
| Sh4Access.LoadsHalf | runtime/dc_sh4_interp.cpp:858-862 | the PC-relative MOV.W loads the signed half word behind the next-but-one instruction |
| Sh4Access.RegisterMoves | runtime/dc_sh4_interp.cpp:508-514 | MOVT and STS of MACH, MACL and PR |
| Sh4Access.TReadsBack | runtime/dc_sh4_interp.cpp:496-508 | SETT or CLRT and then MOVT |
| Sh4Access.ProductReadsBack | runtime/dc_sh4_interp.cpp:493-513 | MUL.L and STS MACL put the product modulo 2^32 into any register |
| Sh4Flow.SlotExact | runtime/dc_sh4_interp.cpp:470-887 | in a delay slot exactly the instructions that transfer, trap or sleep are illegal, and change nothing; every other one does what it does elsewhere |
| Sh4Flow.ConditionalBranches | runtime/dc_sh4_interp.cpp:842-853 | the four conditional branches: pc + 4 + 2 * the signed displacement, on T set or clear, with or without delay slot |
| Sh4Flow.LongBranches | runtime/dc_sh4_interp.cpp:864-876 | BRA and BSR: pc + 4 + 2 * the signed twelve-bit displacement; BSR leaves pc + 4 in PR |
| Sh4Flow.RegisterBranches | runtime/dc_sh4_interp.cpp:470-751 | BRAF, BSRF, JMP, JSR and RTS |
| Sh4Flow.TrapAndSleep | runtime/dc_sh4_interp.cpp:534-887 | TRAPA with its immediate and SLEEP |
| Sh4Flow.CallReturns | runtime/dc_sh4_interp.cpp:470-876 | after JSR, BSRF or BSR an RTS with the same PR goes to the instruction behind the delay slot |
| Sh4Flow.NestedCallReturns | runtime/dc_sh4_interp.cpp:470-747 | a function that saves PR on the stack returns to its own caller whatever inner calls put into PR |
| Sh4Flow.DtLoop | runtime/dc_sh4_interp.cpp:695-695 | DT and BF back to it: the loop runs exactly as often as the register says, 2^32 times from zero, and leaves it zero |
| Sh4Flow.ConditionalIterations | runtime/dc_sh4_interp.cpp:1269-1314 | one iteration of the run loop at BT, BF, BT/S and BF/S: T is taken before the delay slot, which runs either way |
| Sh4Flow.DelayedIterations | runtime/dc_sh4_interp.cpp:1269-1314 | RTS returns to PR as it was before its slot, JMP to the register as it was, JSR has PR set before its slot |
| Sh4Interp.InterpRunAdd | runtime/dc_sh4_interp.cpp:1204-1315 | running a + b iterations is running a and then b, and the instruction counts add up |
| Sh4Interp.FinishedRunsAgree | runtime/dc_sh4_interp.cpp:1204-1315 | two finished runs from the same start have the same outcome and the same count |
| InterpreterLoop.Runtime.Interpret | runtime/dc_sh4_interp.cpp:1163-1316 | cycles charged equal instructions plus empty block ticks plus 512 per SLEEP slice plus what callees spent, at every return; at most 65 instructions between two ticks of the frame; as long as no scheduler pass changes or redirects anything, at any batch size, the loop returns, stops and goes on exactly where the transition function does, and charges one cycle per instruction and one for its entry; a frame that ends by handing over to t ended with the call of t, from the state in which the transition function hands over to t; whatever the scheduler does, each instruction stands where the one before it led, and a frame that is done returned to the target of its last instruction, an RTS |
| InterpreterLoop.Runtime.Iterate | runtime/dc_sh4_interp.cpp:1204-1315 | one iteration keeps the account and the straight-line bound; undisturbed it is one transition, and only a return or an exception ends it; the log grows by the calls, ticks and traps of that instruction |
| InterpreterLoop.Runtime.Turn | runtime/dc_sh4_interp.cpp:1204-1223 | a tick when the straight line has become too long, then one iteration, unless the tick redirected |
| InterpreterLoop.Runtime.FinishTransfer | runtime/dc_sh4_interp.cpp:1269-1314 | delay slot first, then return, call, jump or fall-through, each in the log; a callee sees PC, return address and flushed cycles of the call; a return ends at PR; undisturbed it is the transition |
| InterpreterLoop.Runtime.FinishSleep | runtime/dc_sh4_interp.cpp:1233-1249 | the scheduler sees at least one and at most 2^18 slices of 512 cycles at the following instruction; if none redirects, all of them and one empty tick there |
| InterpreterLoop.Runtime.FinishBranch | runtime/dc_sh4_interp.cpp:1280-1314 | a branch or jump without call: to its target if taken, behind it otherwise |
| InterpreterLoop.Runtime.EnterTrap | runtime/dc_sh4_interp.cpp:1251-1267 | the trap handler gets the immediate, the resume address behind the TRAPA and everything flushed |
| InterpreterLoop.Runtime.CallOut | runtime/dc_sh4_interp.cpp:1301-1313 | the callee starts with everything flushed, the call site as PC and the return address in PR; the frame goes on, with an empty tick, only if it came back there without a redirect |
| InterpreterLoop.Runtime.JumpTo | runtime/dc_sh4_interp.cpp:1191-1201 | a registered target is called, with its own address, the branch as PC, everything flushed and PR unchanged; any other target ticks and goes on |
| InterpreterLoop.Runtime.BlockTick | runtime/dc_sh4_interp.cpp:1176-1188 | charges the cycles of the block, one if it was empty |
| InterpreterLoop.Runtime.TickFast | build-v011/dc_recomp_addressbus_output/dc_runtime.hpp:1603-1618 | below a batch only pending cycles change; at a batch all of them go to the scheduler; a redirect counts as a disturbance |
| RecompiledFunction.DoFillBlock | build-v011/dc_recomp_addressbus_output/generated_program.cpp:152-234 | the blocks of the fill and the stuck-high loop, statement by statement on the mutable context, take the state and the goto of the block function |
| RecompiledFunction.DoScanBlock | build-v011/dc_recomp_addressbus_output/generated_program.cpp:236-350 | the same for the nested loops and the three exits |
| AddressBusProgram.ShiftProgress | build-v011/dc_recomp_addressbus_output/generated_program.cpp:152-350 | a walking bit that still meets the mask has one shift less to go |
| AddressBusProgram.StoreKeepsText | build-v011/dc_recomp_addressbus_output/generated_program.cpp:33-51 | a store away from the text page leaves every opcode in place |
| RecompiledFunction.Recompiled | build-v011/dc_recomp_addressbus_output/generated_program.cpp:131-353 | the generated function terminates from every label for every state |
| RecompiledFunction.BlockProgress | build-v011/dc_recomp_addressbus_output/generated_program.cpp:131-353 | every goto decreases a measure over both nested loops |
| RecompiledFunction.RunGenerated | build-v011/dc_recomp_addressbus_output/generated_program.cpp:131-353 | the goto-linked blocks on the runtime, each publishing its label and ticking: undisturbed, they return with the computed state and PC = PR, having charged the sum of the block costs, as soon as the budget covers the blocks |
| RecompiledFunction.EntryOfLabel | build-v011/dc_recomp_addressbus_output/generated_program.cpp:134-151 | each of the labels of the entry switch leads to its own block |
| TranslationValidation.TranslationValidated | build-v011/dc_recomp_addressbus_output/generated_program.cpp:131-353 | interpreting the embedded instruction words from 0x8C010080 returns with the registers, status, PC and memory of the generated function, for every state whose test stores miss the text; instructions plus the entry tick equal the cycles of the generated blocks |
| AddressBusRuns.InterpretText | runtime/dc_sh4_interp.cpp:1163-1316 | the loop itself, entered at the function and undisturbed, ends the frame with the state, PC and charge of the generated function, given budget enough |
| AddressBusRuns.BothWays | runtime/dc_sh4_interp.cpp:3-5 | on two runtimes that start alike, the interpreter and the generated code leave the same state, PC and cycle charge |
| AddressBusRuns.HandedOver | runtime/dc_sh4_interp.cpp:1191-1201 | the interpreter starts at any label, meets a registered one and hands over, the generated code goes on there: state, PC and cycles of both parts are those of the generated function from the start |
| AddressBusRuns.HandOverTarget | build-v011/dc_recomp_addressbus_output/generated_program.cpp:134-151 | a hand-over lands at a label from which the rest of the computation is the generated one |
| TranslationValidation.InterpretedEqualsRecompiled | runtime/dc_sh4_interp.cpp:1189-1201 | the same from every label, with any set of labels registered as compiled: the interpreter returns with the generated result or hands over where the generated function computes it, and the cycles of both parts add up |
| TranslationValidation.SimulateBlock | build-v011/dc_recomp_addressbus_output/generated_program.cpp:131-353 | each basic block is simulated by a fixed number of interpreter iterations, for the cycles its header charges, one less at the exits |
| TranslationValidation.GuardedOn | build-v011/dc_recomp_addressbus_output/generated_program.cpp:131-353 | the condition under which the text survives is kept by every block |
| TranslationValidation.FetchText | build-v011/dc_recomp_addressbus_output/dc_image.cpp:10-28 | the fetch at each address of the text gives the embedded opcode |
| TranslationValidation.MachineCodeIsExact | build-v011/dc_recomp_addressbus_output/dc_image.cpp:10-28 | the interpreted machine code, too, returns the verdict, and 0 exactly for an injective decoder where no line is 0 |
| AddressBusTest.TestReturnsVerdict | build-v011/dc_recomp_addressbus_output/generated_program.cpp:152-350 | over any decoder the function returns the first line that shares a word with the base, else the first that shares one with another line, else 0 |
| AddressBusTest.TestIsExact | build-v011/dc_recomp_addressbus_output/generated_program.cpp:152-350 | it returns 0 if and only if base and lines select different words or the reported line is itself 0 |
| AddressBusTest.ExactForEveryDecoder | build-v011/dc_recomp_addressbus_output/generated_program.cpp:152-350 | for a given base and number of lines the test is exact over every decoder and memory if and only if no line is 0 |
| AddressBusTest.ZeroAddressPasses | build-v011/dc_recomp_addressbus_output/generated_program.cpp:152-350 | base 0xFFFFFFFC and one line, sharing a word: reported as 0, which reads as success |
| AddressBusTest.PowerOfTwoLines | build-v011/dc_recomp_addressbus_output/generated_program.cpp:140-152 | for 4 * 2^e bytes the lines under test are the address bits 0 to e - 1 |
| AddressBusTest.TestMeasuresSdram | build-v011/dc_recomp_addressbus_output/dc_runtime.hpp:462-463 | on the 16 MiB SDRAM with its mirrors the function passes exactly for sizes up to 16 MiB |
| AddressBusTest.SdramInjective | build-v011/dc_recomp_addressbus_output/dc_runtime.cpp:285-295 | the mirrored decoder tells k address lines apart if and only if k is at most 22 |
| Memory.ReadAfterWrite | build-v011/dc_recomp_addressbus_output/dc_runtime.cpp:10036-10083 | a word reads back what was stored, and disjoint words are unchanged |
| Arm7Core.Context.StepOne | runtime/dc_arm7.cpp:333-632 | a step on live registers and saved banks is the step on one physical register file, for every instruction class, exception entry, fault and refusal |
| Arm7Core.Context.Run | runtime/dc_arm7.cpp:634-645 | so is a run of any length, with its count of executed steps and its last status |
| Arm7Step.RunEnds | runtime/dc_arm7.cpp:634-645 | a run that ends early ends halted or with the status of the step that refused |
| Arm7Core.Context.SwitchMode | runtime/dc_arm7.cpp:286-299 | a mode change moves registers between live file and banks and changes no physical register |
| Arm7Core.Context.SaveBank | runtime/dc_arm7.cpp:45-55 | which bank each mode saves to |
| Arm7Core.Context.LoadBank | runtime/dc_arm7.cpp:57-67 | which bank each mode loads from |
| Arm7Core.Context.TakeException | runtime/dc_arm7.cpp:260-276 | SPSR, masked status, return address in the new mode's LR, vector; the interrupted registers banked |
| Arm7Core.Context.FetchedUser | runtime/dc_arm7.cpp:107-122 | reads the User entry from any mode |
| Arm7Core.Context.WriteUser | runtime/dc_arm7.cpp:124-136 | updates exactly the User entry from any mode |
| Arm7Core.Context.WriteCpsr | runtime/dc_arm7.cpp:286-299 | an invalid mode in the new value keeps the old one |
| Arm7Core.Context.WriteSpsr | runtime/dc_arm7.cpp:312-323 | the masked bytes of the current mode's SPSR, nothing in User and System |
| Arm7Core.Context.DoBlockTransfer | runtime/dc_arm7.cpp:510-573 | LDM and STM with the register loop in place, both meanings of ^, write-back and PC loads |
| Arm7Core.Context.DoDataProcessing | runtime/dc_arm7.cpp:585-627 | the sixteen operations with flags, and the exception return through R15, on live registers and banks |
| Arm7Core.Context.DoMoveToPsr | runtime/dc_arm7.cpp:389-404 | MSR to either status register |
| Arm7Invariants.StepSound | runtime/dc_arm7.cpp:333-632 | every step keeps a valid mode and, in ARM state, a word-aligned PC |
| Arm7Invariants.RunSound | runtime/dc_arm7.cpp:634-645 | so every run does, from reset or any sound state |
| Arm7Invariants.ResetSound | runtime/dc_arm7.cpp:280-284 | reset starts in Supervisor mode, ARM state, both interrupts masked |
| Arm7Isolation.StepConfined | runtime/dc_arm7.cpp:333-632 | an instruction changes only registers its mode sees (and the User bank for LDM with ^) and only its own SPSR |
| Arm7Isolation.EntryConfined | runtime/dc_arm7.cpp:260-276 | exception entry changes only the handler mode's LR and SPSR |
| Arm7Exceptions.InterruptsAreTransparent | runtime/dc_arm7.cpp:339-350 | after any well-nested history of FIQ and IRQ handlers made of steps of the core, returning with SUBS PC,LR,#4, the interrupted program has its r0-r14, CPSR and PC back; a handler owes, at its end, only the registers it shares, its LR and its SPSR |
| Arm7Exceptions.TransparentRun | runtime/dc_arm7.cpp:634-645 | with the interrupt lines left alone such a history is one run of the core of known length that ends where it began |
| Arm7Exceptions.HistoryPlays | runtime/dc_arm7.cpp:325-350 | every history is runs of the core with the line changes in between |
| Arm7Exceptions.NestedHandlers | runtime/dc_arm7.cpp:339-350 | a FIQ inside an IRQ handler is such a history |
| Arm7Exceptions.Transparent | runtime/dc_arm7.cpp:260-276 | the same for every interrupted mode below it at once |
| Arm7Exceptions.BodyKeeps | runtime/dc_arm7.cpp:339-350 | whatever a handler and the handlers nested in it do, the banked registers and SPSRs of all interrupted modes survive |
| Arm7Exceptions.InstructionsKeep | runtime/dc_arm7.cpp:333-632 | instructions of the handler mode cannot reach what the other modes have banked |
| Arm7Exceptions.WorkConfined | runtime/dc_arm7.cpp:333-632 | any number of uninterrupted instructions of one mode reaches only what that mode sees |
| Arm7Exceptions.ReturnStep | runtime/dc_arm7.cpp:615-618 | the return instruction restores status and PC from SPSR and LR |
| Arm7Exceptions.ReturnAddressExact | runtime/dc_arm7.cpp:263-274 | the PC comes back if and only if it was word aligned |
| Arm7Exceptions.ThumbLosesBitOne | runtime/dc_arm7.cpp:263-274 | an interrupted Thumb program at address 2 resumes at 0 |
| Arm7Exceptions.ShortestHandler | runtime/dc_arm7.cpp:339-350 | a vector holding just the return instruction is a legal handler |
| Arm7Transfers.StackRoundTrip | runtime/dc_arm7.cpp:510-573 | STM with write-back and the opposite LDM restore every listed register and the base, whatever happened to them in between, and the load touches nothing else |
| Arm7Transfers.UserBankRoundTrip | runtime/dc_arm7.cpp:528-560 | STM ^ and LDM ^ restore the listed User registers from any modes and leave every other physical register alone |
| Arm7Transfers.OppositeAddresses | runtime/dc_arm7.cpp:532-562 | DB and IA, DA and IB address the same block, and the base returns |
| Arm7Transfers.StoredAtPlaces | runtime/dc_arm7.cpp:538-560 | each listed register is found at its place after the store loop |
| Arm7Transfers.LoadedFromPlaces | runtime/dc_arm7.cpp:538-560 | the load loop takes each listed register from its place |
| Arm7Flags.CompareDecides | runtime/dc_arm7.cpp:78-101 | after CMP every condition decides its signed or unsigned comparison |
| Arm7Flags.AddOverflow | runtime/dc_arm7.cpp:152-163 | V of ADD and ADC is signed overflow |
| Arm7Flags.SubOverflow | runtime/dc_arm7.cpp:165-178 | V of SUB, SBC and their reverses is signed overflow if and only if not (b = 0x7FFFFFFF with borrow) |
| Arm7Chains.AddsAdcsExact | runtime/dc_arm7.cpp:585-627 | executing ADDS on the lowest limb and ADCS on the others, with any steps in between that leave C alone, writes the limbs of the exact sum and leaves the carry out in C |
| Arm7Chains.SubsSbcsExact | runtime/dc_arm7.cpp:585-627 | executing SUBS and SBCS: the exact difference, and C says that nothing was borrowed |
| Arm7Chains.LimbSteps | runtime/dc_arm7.cpp:595-621 | one executed limb instruction writes the result and the carry of the integer operation on its two operands |
| Arm7Flags.AddChainExact | runtime/dc_arm7.cpp:152-163 | carrying C through a limb-wise addition of any length gives the exact sum |
| Arm7Flags.SubChainExact | runtime/dc_arm7.cpp:165-178 | and through a subtraction the exact difference |
| Arm7Flags.MsrSelectsBytes | runtime/dc_arm7.cpp:69-76 | each byte of the result is the new one where its field bit is set and the old one elsewhere |
| Arm7Flags.PsrRoundTrip | runtime/dc_arm7.cpp:69-76 | fields packed into a word unpack to the same fields |
| Arm7Shifter.LeftExact | runtime/dc_arm7.cpp:190-196 | LSL by 1 to 31: value * 2^k is the result plus 2^32 times the digits shifted out, the last of which is the carry |
| Arm7Shifter.RightExact | runtime/dc_arm7.cpp:197-204 | LSR by 1 to 31: the floor of the quotient by 2^k; the carry is the top digit of the remainder |
| Arm7Shifter.ArithmeticExact | runtime/dc_arm7.cpp:205-211 | ASR by 1 to 31: the floor of the signed quotient, with the same carry |
| Arm7Shifter.RotateExact | runtime/dc_arm7.cpp:212-224 | ROR: digit i of the result is digit i + k modulo 32 of the value; the carry is digit 31 of the result |
| Arm7Shifter.ZeroAmount | runtime/dc_arm7.cpp:186-225 | amount 0 in all forms: unchanged by register and for LSL #0; LSR #32, ASR #32 and RRX for the immediate zeros |
| Arm7Shifter.LargeAmount | runtime/dc_arm7.cpp:186-225 | amounts of 32 and more |
| Arm7Shifter.BitwiseExact | runtime/dc_arm7.cpp:595-611 | AND, ORR, EOR, MVN and BIC digit by digit |
| Arm7Data.DataExact | runtime/dc_arm7.cpp:585-627 | an executed data-processing instruction, from its encoding: the result in integers or digits to Rd, or nowhere for the tests; the flags of its kind with S; the PC behind it; nothing else changed |
| Arm7Data.DataToPc | runtime/dc_arm7.cpp:615-618 | with R15 as destination execution goes on at the aligned result, and S restores the status from the SPSR, or sets the flags where there is none |
| Arm7Data.AluMeans | runtime/dc_arm7.cpp:595-614 | every opcode computes its sum, difference or digit-wise operation, and its flags |
| Arm7Data.DataDecodes | runtime/dc_arm7.cpp:585-594 | every data-processing encoding is decoded as what it is, and as nothing else |
| Arm7Data.ConstantBits | runtime/dc_arm7.cpp:230-236 | a constant operand is its byte rotated right by twice the rotation field |
| Arm7Data.ConditionFails | runtime/dc_arm7.cpp:363-367 | an instruction whose condition fails only moves the PC |
| Arm7Data.NothingFetched | runtime/dc_arm7.cpp:333-360 | halted, in Thumb state or at an unmapped address no instruction is fetched, and what the step leaves |
| Arm7Data.SignConditions | runtime/dc_arm7.cpp:78-101 | after any instruction with S: MI and PL are the sign of the result, EQ and NE its being zero |
| Arm7Data.SingleConditions | runtime/dc_arm7.cpp:78-101 | the conditions on single flags, AL and the never-condition |
| Arm7Access.TransferExact | runtime/dc_arm7.cpp:423-507 | a load or store of words, bytes and half-words, from its encoding: address before or after, up or down, by constant or shifted register; memory or Rd; write-back; the PC; nothing else changed; a fault where the address is unmapped, a refusal of write-back to R15 and of signed stores |
| Arm7Access.ShiftByRegisterRefused | runtime/dc_arm7.cpp:470-474 | an offset shifted by a register is refused |
| Arm7Access.PutBytes | runtime/dc_arm7.cpp:460-507 | a store changes exactly the bytes of its aligned word, half-word or byte, low byte first |
| Arm7Access.LoadAfterStore | runtime/dc_arm7.cpp:423-507 | a load after a store at the same address finds what was stored, whatever ran in between and left those bytes alone |
| Arm7Access.ReadAsExact | runtime/dc_arm7.cpp:424-497 | aligned words come back as they are, unaligned ones with the addressed byte lowest, signed bytes and half-words with their sign |
| Arm7Access.OppositeWays | runtime/dc_arm7.cpp:423-507 | pre-indexed down and post-indexed up, and the other opposite pairs, access the same address and put the base back |
| Arm7Access.StoreLoadOpposite | runtime/dc_arm7.cpp:423-507 | a store with write-back and the opposite load, executed one after the other, give back value and base |
| Arm7Flow.MultiplyExact | runtime/dc_arm7.cpp:406-421 | MUL and MLA are congruent to product and product plus addend modulo 2^32, with N and Z of the result; R15 is refused |
| Arm7Flow.CoprocessorRefused | runtime/dc_arm7.cpp:629-632 | coprocessor and software-interrupt encodings are refused |
| Arm7Flow.BranchExact | runtime/dc_arm7.cpp:576-582 | B and BL reach the address plus 8 plus four times the signed offset; BL leaves the address behind it in R14 |
| Arm7Flow.ExchangeExact | runtime/dc_arm7.cpp:370-375 | BX takes state and aligned target from the register |
| Arm7Flow.CallReturns | runtime/dc_arm7.cpp:370-582 | BL and a later BX R14 go on behind the BL |
| Arm7Status.MrsExact | runtime/dc_arm7.cpp:377-385 | MRS puts the word of the chosen status register into Rd |
| Arm7Status.PsrDigits | runtime/dc_arm7.cpp:69-76 | which digit of the word each flag is |
| Arm7Status.WordRoundTrip | runtime/dc_arm7.cpp:69-76 | a word is what its fields are packed to |
| Arm7Status.MsrCurrent | runtime/dc_arm7.cpp:387-404 | MSR to the current status: exactly the selected bytes, except that an invalid mode is not taken |
| Arm7Status.MsrSaved | runtime/dc_arm7.cpp:387-404 | MSR to the saved status: exactly the selected bytes of the current mode's, nothing in User and System |
| Arm7Status.StatusReadsBack | runtime/dc_arm7.cpp:378-404 | a word with a valid mode moved whole to the status is what MRS reads next |
| Arm7Blocks.BlockStores | runtime/dc_arm7.cpp:510-573 | an executed STM, from its encoding: ascending registers at ascending addresses from the lowest word of its mode, R15 as address plus 12, User registers with ^, the base moved, nothing else changed |
| Arm7Blocks.BlockLoads | runtime/dc_arm7.cpp:510-573 | an executed LDM: each listed register is its word, R15 the aligned one, the base moved, no other register changed; with ^ and R15 the status is the saved one |
| Arm7Blocks.BlockDecodes | runtime/dc_arm7.cpp:510-524 | every block-transfer encoding is decoded into its fields |
| Arm7Blocks.BlockRefused | runtime/dc_arm7.cpp:518-530 | a block transfer is refused if and only if its base is R15, its list is empty, or it returns with ^ where there is no saved status; refusal changes nothing but the halt |
| Arm7Blocks.ExecutedRoundTrip | runtime/dc_arm7.cpp:510-573 | the stack round trip for executed instructions |
| LiteralPages.LiteralsReadRam | build-v011/dc_recomp_addressbus_output/dc_runtime.cpp:13866-13886 | while RAM is coherent, baked-when-clean or RAM-when-dirty is a plain RAM read, at any alignment and across pages |
| LiteralPages.CoherentIffLiteralsAgree | build-v011/dc_recomp_addressbus_output/dc_runtime.cpp:13866-13886 | coherence holds if and only if every aligned literal reads RAM |
| LiteralPages.StoreCoherent | build-v011/dc_recomp_addressbus_output/dc_runtime.cpp:9905-10083 | every 8-, 16- and 32-bit guest store keeps coherence, through every mirror and across pages |
| LiteralPages.BulkExact | build-v011/dc_recomp_addressbus_output/dc_runtime.cpp:10124-10159 | a bulk copy keeps coherence if and only if each byte it puts on a clean page is the baked byte |
| LiteralPages.RunExact | build-v011/dc_recomp_addressbus_output/dc_runtime.cpp:9905-10159 | through a run of stores and bulk copies literals agree with RAM all the time if and only if each bulk copy is harmless in that sense at its time |
| LiteralPages.ZeroingLeavesStaleLiteral | build-v011/dc_recomp_addressbus_output/dc_runtime.cpp:10135-10159 | zeroing a nonzero literal on a clean page leaves it stale |
| LiteralPages.StoreIsWrite32 | build-v011/dc_recomp_addressbus_output/generated_program.cpp:33-51 | on the SDRAM path the store is the one of the recompiled code |
| LiteralPages.EveryMirror | build-v011/dc_recomp_addressbus_output/dc_runtime.cpp:285-295 | each of four mirrors in area 3 of each of eight aliases leads to the same 16 MiB; other areas and accesses past the end of a mirror have no place |
| LiteralPages.StoresReadBack | build-v011/dc_recomp_addressbus_output/dc_runtime.cpp:9905-10083 | stores of one, two and four bytes read back and leave every other byte |
| LiteralPages.BulkLands | build-v011/dc_recomp_addressbus_output/dc_runtime.cpp:10124-10133 | every byte of a bulk copy lands at its address, inside one mirror or across its end; where two meet the later one stays; nothing else changes |
| LiteralPages.MainRam.Write8 | build-v011/dc_recomp_addressbus_output/dc_runtime.cpp:9905-9922 | byte and page mark |
| LiteralPages.MainRam.Write16 | build-v011/dc_recomp_addressbus_output/dc_runtime.cpp:9936-9956 | two bytes and the pages of both |
| LiteralPages.MainRam.Write32 | build-v011/dc_recomp_addressbus_output/dc_runtime.cpp:10053-10083 | four bytes and the pages of the first and the last |
| LiteralPages.MainRam.LoadBytes | build-v011/dc_recomp_addressbus_output/dc_runtime.cpp:10124-10133 | a copy without marks inside one mirror, byte by byte with marks beyond its end |
| LiteralPages.MainRam.LoadLiteral32 | build-v011/dc_recomp_addressbus_output/dc_runtime.cpp:13866-13886 | the literal read, counted when it is dynamic |
| GuestHeap.RunKeepsValid | runtime/dc_native_overrides.cpp:297-347 | through every trace live blocks stay disjoint, inside the heap and below the next free address |
| GuestHeap.RunHonours | runtime/dc_native_overrides.cpp:297-347 | through every trace each live block has the alignment and, at least one byte, the size it was asked for, and the extents asked for are disjoint and inside the heap |
| GuestHeap.CallExact | runtime/dc_native_overrides.cpp:297-347 | each call of the family by its request: it succeeds exactly when it asks for something that fits; the new block is the next aligned one and holds max(1, size); apart from it and the block given up nothing changes |
| GuestHeap.BlockSurvives | runtime/dc_native_overrides.cpp:297-347 | a block that is not released and not written keeps size and bytes through every trace of other calls and stores |
| GuestHeap.OthersUntouched | runtime/dc_native_overrides.cpp:297-347 | no single operation changes another live block |
| GuestHeap.CallKeepsValid | runtime/dc_native_overrides.cpp:297-347 | each operation keeps the block invariant |
| GuestHeap.AllocFacts | runtime/dc_native_overrides.cpp:297-305 | an allocation succeeds exactly when it has room; its block is aligned, new, and behind all earlier ones |
| GuestHeap.ReallocKeepsBytes | runtime/dc_native_overrides.cpp:325-338 | the first min(old, new) bytes move along, the old block is gone; on failure nothing changes |
| GuestHeap.CallocZeroes | runtime/dc_native_overrides.cpp:311-318 | succeeds exactly when the product fits 32 bits and there is room, and the block is zero |
| GuestHeap.HugeAlignmentExact | runtime/dc_native_overrides.cpp:297-305 | alignment 2^31 returns 0 and keeps the invariant if and only if the size is beyond the end of the heap |
| GuestHeap.RoundUpExact | runtime/dc_native_overrides.cpp:299-300 | up to 2^30 the mask arithmetic finds the least aligned address that is not below next |
| GuestHeap.ValidAlignmentExact | runtime/dc_native_overrides.cpp:340-342 | the bit test accepts exactly the powers of two |
| GuestHeap.AlignmentRange | runtime/dc_native_overrides.cpp:340-347 | a valid alignment is at most 2^30, or 2^31 |
| GuestHeap.GuestHeap.HeapAlloc | runtime/dc_native_overrides.cpp:297-305 | the allocator on the runtime's fields |
| GuestHeap.GuestHeap.NativeMalloc | runtime/dc_native_overrides.cpp:307-309 | malloc is the 8-aligned allocation |
| GuestHeap.GuestHeap.NativeCalloc | runtime/dc_native_overrides.cpp:311-318 | calloc with its overflow check and zeroing |
| GuestHeap.GuestHeap.NativeFree | runtime/dc_native_overrides.cpp:320-323 | forgets the block |
| GuestHeap.GuestHeap.NativeRealloc | runtime/dc_native_overrides.cpp:325-338 | the byte loop in place |
| GuestHeap.GuestHeap.NativeMemalign | runtime/dc_native_overrides.cpp:340-347 | aligned allocation, 0 for an invalid alignment |
| PluginThreads.LookupsLinearize | runtime/dcr_plugin_host.cpp:119-138 | every lookup, hit or miss, answers what was published for the runtime at some instant between its call and its return |
| PluginThreads.CacheAgreesExactly | runtime/dcr_plugin_host.cpp:119-138 | in every run, a cache in step with the generation disagrees with its runtime's registry on a kind below 16 if and only if that runtime is between erasure and bump of a shutdown and had a plugin of the kind that is not null |
| PluginThreads.OutdatedExactly | runtime/dcr_plugin_host.cpp:266-277 | the registry of a cache in step is gone exactly inside that window |
| PluginThreads.StepKeeps | runtime/dcr_plugin_host.cpp:119-277 | every step of every thread keeps mutual exclusion, unique kinds and cache coherence |
| PluginThreads.InitHolds | runtime/dcr_plugin_host.cpp:46-60 | the initial state is coherent |
| PluginThreads.WindowReached | runtime/dcr_plugin_host.cpp:266-277 | a run from the initial state, load, find and shutdown on two threads, that reaches the window |
| PluginThreads.LoadPublishes | runtime/dcr_plugin_host.cpp:195-264 | a finished load publishes exactly the plugins of its directory, and leaves no cache in step |
| PluginThreads.FillRemembers | runtime/dcr_plugin_host.cpp:119-134 | the cache a missing lookup fills is marked with the generation the lookup began with, and is in step only if that has not moved since |
| PluginThreads.ShutdownForgets | runtime/dcr_plugin_host.cpp:266-277 | a thread that has shut a runtime down holds no cache of it, and from the bump on nobody's cache is in step |
| PluginHost.Host.FindPluginFast | runtime/dcr_plugin_host.cpp:119-138 | on one thread the cached lookup is the registry lookup, and changes only the cache |
| PluginHost.Host.FindPluginLocked | runtime/dcr_plugin_host.cpp:114-117 | the first plugin of the kind |
| PluginHost.Host.LoadDefault | runtime/dcr_plugin_host.cpp:195-264 | loads once; other runtimes, and the coherence of every thread's cache, are kept |
| PluginHost.Host.Shutdown | runtime/dcr_plugin_host.cpp:266-277 | removes the runtime; every coherent cache stays coherent |
| PluginHost.TableIsLookup | runtime/dcr_plugin_host.cpp:127-135 | with unique kinds the table of the copying loop, where the last wins, is the first-match lookup |
| PluginHost.TwinsDisagree | runtime/dcr_plugin_host.cpp:127-135 | without unique kinds it is not |
| PluginHost.LoadAllUnique | runtime/dcr_plugin_host.cpp:220-261 | loading refuses duplicate kinds, so kinds stay unique |
| PluginHost.LoadOneExact | runtime/dcr_plugin_host.cpp:220-261 | a library changes the lookup of a kind if and only if it offers that kind, by its v2 or else its v1 descriptor, and nobody did before |
| PluginHost.FirstOfferWins | runtime/dcr_plugin_host.cpp:220-261 | after loading, the lookup of a kind is the offer of the first library that makes one |
| PluginHost.FirstFinds | runtime/dcr_plugin_host.cpp:114-117 | a lookup finds a plugin of the kind if and only if there is one |
| AssemblerMeaning.ReadBack | tools/make_addressbus_elf.py:26-94 | for every program `finish` accepts at an even base, at every word: the processor fetches it and does what the source instruction means; jumps reach their labels, literal loads get the requested 32 bits |
| AssemblerMeaning.ConditionalForms | runtime/dc_sh4_interp.cpp:842-847 | BT and BF decode to the label's address and the right condition |
| AssemblerMeaning.DelayedForms | runtime/dc_sh4_interp.cpp:864-876 | BRA and BSR decode to the label's address |
| AssemblerMeaning.LiteralForm | runtime/dc_sh4_interp.cpp:908-911 | the literal load reads the requested value from the emitted bytes |
| AssemblerMeaning.LoadedInSdram | build-v011/dc_recomp_addressbus_output/dc_runtime.cpp:10124-10128 | copying the bytes to SDRAM makes them readable there |
| Assembler.Asm.Finish | tools/make_addressbus_elf.py:65-94 | succeeds if and only if every jump has a defined label in reach and every literal is in reach; the words are then the resolved ones followed by the aligned pool |
| Assembler.Asm.PlaceLiterals | tools/make_addressbus_elf.py:66-72 | alignment, then each requested value once, in order of first use |
| Assembler.Asm.PatchJumps | tools/make_addressbus_elf.py:74-85 | patches exactly the jumps, or refuses one out of reach or without label |
| Assembler.Asm.PatchLiterals | tools/make_addressbus_elf.py:87-93 | patches exactly the literal loads, or refuses one out of reach |
| Assembler.Asm.EmitJump | tools/make_addressbus_elf.py:54-61 | placeholder word and fixup, with a NOP in the delay slot of bra and bsr |
| Assembler.Asm.EmitLiteral | tools/make_addressbus_elf.py:62-63 | placeholder word and literal fixup |
| Assembler.Asm.Label | tools/make_addressbus_elf.py:36-36 | the address of the next word |
| Assembler.PoolHolds | tools/make_addressbus_elf.py:67-72 | every requested value is in the pool, none twice |
| Assembler.PackAt | tools/make_addressbus_elf.py:94-94 | words are packed low byte first |
| VmuFat.Audit | launcher/vmu_inspector.py:76-91 | the status is OK if and only if the chain visits exactly `blocks` different in-range blocks and ends in the end mark; every other status is explained |
| VmuFat.OnlyOneExplains | launcher/vmu_inspector.py:76-91 | no chain is explained by two statuses |
| VmuFat.ReadVmu | launcher/vmu_inspector.py:39-96 | every image of the right size yields its capacity, its free and used blocks, and one audited entry per occupied directory record, in order |
| VmuFat.ReadEntry | launcher/vmu_inspector.py:66-91 | the fields of a directory record with its audit |
| VmuFat.LayoutReadsBack | launcher/vmu_inspector.py:39-59 | an image written low byte first gives back its table, capacity and directory |
| VmuFat.RecordReadsBack | launcher/vmu_inspector.py:66-75 | and the fields of a directory record |
| VmuFat.RecordsExact | launcher/vmu_inspector.py:60-75 | the records are the 32-byte slots of the directory blocks in order, from the root's block downwards |
| VmuFat.SharedTail | launcher/vmu_inspector.py:76-91 | two OK chains that meet are equally far from their ends and agree from there on |
| VmuFat.FilesFitUsed | launcher/vmu_inspector.py:58-59 | disjoint OK files never hold more blocks than the report counts as used |
| VmuFat.ProperIsUsed | launcher/vmu_inspector.py:76-91 | every block of an OK file is in use |
| VmuLines.LCD.Line | launcher/vmu_pixels.py:56-65 | the loop draws the rounded ideal line, max(|dx|, |dy|) + 1 dots, and terminates |
| VmuLines.LCD.Dot | launcher/vmu_pixels.py:42-44 | a pixel on the screen takes the colour, any other is ignored |
| VmuLines.NextDot | launcher/vmu_pixels.py:62-65 | the two error tests move to the next dot of the rounded line |
| VmuLines.EndPoints | launcher/vmu_pixels.py:58-65 | the first dot is one end point, and the other one is reached by the last dot only |
| VmuLines.Connected | launcher/vmu_pixels.py:62-65 | each dot is at most one pixel per axis, and not zero, from the one before |
| VmuLines.WithinHalfAPixel | launcher/vmu_pixels.py:56-65 | on the shorter axis every dot is within half a pixel of the ideal line |
| VmuLines.RoundExact | launcher/vmu_pixels.py:56-65 | rounding is the integer in the half-open interval of one around the ideal value |
| VmuLines.PixelsExact | launcher/vmu_pixels.py:42-65 | exactly the pixels of the line that are on the screen take the colour |

## Left out

- SH-4 floating point and the FPU registers: they depend on host rounding.
- `exec_one` opcodes outside the sequences and programs above (byte and half-word moves, shifts by 8 and 16, dynamic shifts, XOR, OR, NOT, SWAP, XTRCT, the extensions, DMULS, DMULU, MULS, MULU, ADDV, SUBV, CMP/STR, TAS, GBR forms, control-register moves, RTE, PREF, MOVCA and cache operations): one-line definitions that no main result needs. The model answers `Unmodelled`, which stops a run.
- The SH-4 status register is kept as its T, S, Q and M bits and a remainder; privilege, register banks and `dc_write_sr` are not modelled.
- Guest memory behind the decoder is one array; device registers, store queues, on-chip RAM, the MMU and the exceptions of unmapped addresses are not part of this model.
- Memory.Sdram: within three bytes of the end of a mirror the decoder clamps, where the code takes its slow path; aligned words never get there.
- InterpreterLoop.Runtime.Interpret: takes a budget of iterations, because the loop need not end; a full scheduler tick that disturbs, recompiled callees and trap entry are arbitrary effects on the machine that charge what they spend.
- TranslationValidation.TranslationValidated: stretches that the scheduler does not disturb, and stores that miss the text page, as the generated code itself assumes; active relocation of literals is not modelled.
- RecompiledFunction.RunGenerated: takes a budget of blocks, because a disturbed run may go round forever.
- `recomp_8C010000`, the caller with its fixed arguments: its two calls add nothing to the function's own theorem.
- ARM banks are value sequences inside the context object; the bus is a map from addresses to bytes that throws where it is undefined, and the AICA side effects behind it are left out.
- Thumb state, coprocessor and software-interrupt encodings: the core refuses them, and so does the model.
- Arm7Exceptions.InterruptsAreTransparent: handlers that leave their mode in between, or load the User bank, have to put back what they reached; that is part of their legality, not proved of them.
- Arm7Transfers.StackRoundTrip: neither R15 nor the base is in the list; those encodings have no round trip.
- LiteralPages: the 64-bit stores are two 32-bit ones; writes of devices into RAM are not modelled.
- GuestHeap: alignments of 2^31 are excluded from the traces and treated by `HugeAlignmentExact`; the `_r` variants move the arguments by one register.
- PluginThreads: the generation counter does not wrap; descriptors are numbers, and the callbacks of plugins, including `destroy`, have no effect.
- Library files of plugins are given as what their entry points answer; searching the directory and the dynamic loader are left out.
- The ELF container around the assembled program, and the manual branch patch of its `main`.
- Entry names, the warning texts and the default-range messages of the memory-unit report.
- The rest of the launcher, the renderer, sound, disc and controller emulation.
