# MU-MIPS pipeline engine in Dafny

A model of the pipeline engine of the MU-MIPS simulator (`mu-mips.c`). MU-MIPS is
an instruction-level simulator of a five-stage MIPS32 pipeline. It covers the
following parts:

- **Word memory.** `mem_read_32` and `mem_write_32` access a table of byte
  regions. Words are little-endian.
- **The five stages.** IF, ID, EX, MEM and WB pass an instruction word through
  the latches IF/ID, ID/EX, EX/MEM and MEM/WB. They read `CURRENT_STATE` and
  write `NEXT_STATE`.
- **The cycle driver.** `handle_pipeline` runs the stages in the order WB, MEM,
  EX, ID, IF. `cycle` then makes the next state current and counts the cycle.
- **The run loops.** `run(n)` and `runAll` are governed by `RUN_FLAG`, which a
  SYSCALL with register 2 equal to 10 clears.
- **Start-up and reset.** `initialize` and the register part of `reset`.

The model has five modules:

- `Words` (`words.dfy`): 32-bit words and bytes as bounded integers, the bit
  fields of an instruction word, and sign extension.
- `Alu` (`alu.dfy`): the EX expressions. These are the shifts, the 64-bit
  products split into HI and LO, the two divisions, set-less-than, and the
  SB/SH merges.
- `Memory` (`memory.dfy`): the memory as a value (`Image`), with `ReadWord` and
  `WriteWord`. Beside it is the memory as the simulator holds it: a
  `RegionTable` of `Region` objects over byte arrays. Its `Read32` and
  `Write32` loops are proved against `ReadWord` and `WriteWord`.
- `Pipeline` (`pipeline.dfy`): the whole simulator state as a value
  (`Machine`). Each stage, a cycle, a run, reset and start-up are functions on
  it, with the lemmas that say what they do.
- `Simulator` (`simulator.dfy`): the simulator as a class. It has register
  arrays, latch fields, the flag, the counter and a region table. Each stage
  method, `Cycle`, `Run`, `RunAll` and `ResetRegisters` is proved to change
  `Model()` exactly as the matching `Pipeline` function says.

Bit operations are written as arithmetic on bounded integers. Masking a field
and shifting it down is a division by a power of two and a remainder. `~x` is
`0xFFFFFFFF - x`. C's unsigned wrap-around is a remainder modulo 2^32.

The source file does not compile as it stands: it contains an unresolved merge
conflict. The model follows the HEAD side of EX (mu-mips.c:476-624) and of ID
(mu-mips.c:820-838). The load and store semantics come from the incoming side
(mu-mips.c:781-806), because HEAD's MEM only sketches them:

- LB and LH sign-extend the loaded byte or half.
- SB and SH merge the stored byte or half into the word in memory.

Where the code and the intended behaviour differ, the model uses the intended
behaviour. It also keeps the code as written, with a lemma that shows the
difference (see "## Findings").

The model follows the code in these points:

- MULT, MULTU, DIV, DIVU, MTHI and MTLO write HI and LO directly into the next
  state during EX.
- WB does not count retired instructions. The comment at mu-mips.c:314-315 says
  that `INSTRUCTION_COUNT` should be incremented in WB, but no code of the core
  increments it.
- MEM/WB and EX/MEM are filled for every instruction. As written, the latch
  assignments sit inside the `else` branch of the opcode test, whose closing
  brace is missing; the model treats them as the end of the function.

## Model

| member | source | states |
|---|---|---|
| `Words.Signed` | mu-mips.c:544-545 | The `(int32_t)` reading of a word lies in [-2^31, 2^31), wraps back to the word, and is negative exactly when bit 31 is set. |
| `Words.DecodeEncodeR` | mu-mips.c:333-336 | Extracting opcode, rs, rt, rd, shift amount and function from a word built from given fields returns exactly those fields. |
| `Words.EncodeDecodeR` | mu-mips.c:482-484 | Every word is the re-encoding of its own six fields: the field extraction loses nothing. |
| `Words.SignExtend16` | mu-mips.c:830-833 | The immediate's extension keeps the low 16 bits. The upper 16 bits are all ones exactly when bit 15 is set, and all zeros otherwise. Read as signed, it is the 16-bit field read as signed. |
| `Words.SignExtend8` | mu-mips.c:783 | LB's extension keeps the low 8 bits. The upper 24 bits are all ones exactly when bit 7 is set. Read as signed, it is the byte read as signed. |
| `Words.SignExtend16Idempotent` | mu-mips.c:589 | Extending EX's already extended immediate again changes nothing. |
| `Alu.ShiftLeft` | mu-mips.c:489-490 | SLL's `b << sa` on a `uint32_t`: `b` times 2^sa modulo 2^32. Its contract is empty; `Alu.ShiftLeftBits` states its bits. |
| `Alu.ShiftRightLogical` | mu-mips.c:492-493 | SRL's `b >> sa` is below 2^(32-sa), and shifted back plus the dropped low bits it gives `b`. So it is the floor of `b / 2^sa`. |
| `Alu.ShiftLeftBits` | mu-mips.c:489-490 | SLL's `b << sa` has its low `sa` bits clear. Above them it holds the low `32 - sa` bits of `b`. |
| `Alu.ShiftRightArith` | mu-mips.c:495-502 | Intended SRA: read as signed, the result is the signed operand divided by 2^sa, rounded toward minus infinity. |
| `Alu.ShiftRightArithAsWritten` | mu-mips.c:495-502 | SRA as written: the logical shift of the complement, complemented back, if `b & 0x80000000` equals 1, and the logical shift otherwise. The test never holds. Its contract is empty; `Alu.SraAsWrittenIsLogical` states that it is the logical shift. |
| `Alu.SraAsWrittenIsLogical` | mu-mips.c:496 | SRA as written equals the logical shift for every operand, because its sign test is never true. |
| `Alu.SraAsWrittenLosesSign` | mu-mips.c:495-502 | 0x80000000 shifted by 1 gives 0x40000000 as written and 0xC0000000 as intended. |
| `Alu.Widen` | mu-mips.c:522-531 | MULT's widening of an operand to 64 bits is its signed value modulo 2^64. |
| `Alu.Split` | mu-mips.c:533-534 | HI and LO taken from a 64-bit product join back to that product. |
| `Alu.Mult` | mu-mips.c:521-535 | MULT: the product of the operands widened as signed to 64 bits, modulo 2^64, split into HI and LO. Its contract is empty; `Alu.MultIsSignedProduct` states what it is. |
| `Alu.MultU` | mu-mips.c:536-540 | MULTU: the 64-bit product of the operands, split into HI and LO. Its contract is empty; `Alu.MultUIsProduct` states what it is. |
| `Alu.MultIsSignedProduct` | mu-mips.c:521-535 | MULT leaves in HI:LO the signed product of the operands modulo 2^64. Read as a signed 64-bit value, HI:LO is the exact product. |
| `Alu.MultUIsProduct` | mu-mips.c:536-540 | MULTU leaves in HI:LO exactly the unsigned product of the operands. |
| `Alu.MultExamples` | mu-mips.c:521-539 | -1 × -1 gives HI=0 and LO=1. 0xFFFFFFFF × 2 unsigned gives HI=1 and LO=0xFFFFFFFE. |
| `Alu.QuotTrunc` | mu-mips.c:544-545 | C's division truncates: the remainder is smaller than the divisor in magnitude, and it is zero or has the dividend's sign. |
| `Alu.Div` | mu-mips.c:544-545 | DIV with a non-zero divisor: LO the truncated signed quotient and HI the remainder, each stored as a `uint32_t`. Its contract is empty; `Alu.DivIsTruncatedDivision` and `Alu.DivIsTheTruncatedDivision` state what it is. |
| `Alu.DivIsTruncatedDivision` | mu-mips.c:541-546 | DIV's LO is the truncated quotient of the signed operands and HI the remainder, with the quotient in range except for -2^31 / -1. |
| `Alu.DivU` | mu-mips.c:548-553 | DIVU's LO times the divisor plus HI is the dividend, and HI is below the divisor. |
| `Alu.DivGuarded` | mu-mips.c:541-546 | Intended DIV: nothing happens exactly when the divisor is 0. Otherwise HI and LO satisfy `IsTruncatedDivision`: read as signed, LO times the divisor plus HI is the dividend, HI is smaller than the divisor in magnitude, and HI is zero or has the dividend's sign. For -2^31 / -1, LO is the wrapped quotient 0x80000000. |
| `Alu.DivIsTheTruncatedDivision` | mu-mips.c:544-545 | A HI/LO pair satisfies `IsTruncatedDivision` exactly when it is `Div`'s result, so those conditions fix LO as the truncated quotient and HI as the remainder. |
| `Alu.QuotTruncUnique` | mu-mips.c:544 | Any quotient whose remainder is smaller than the divisor in magnitude, and zero or of the dividend's sign, is C's truncated quotient. |
| `Alu.DivAsWritten` | mu-mips.c:541-546 | DIV as written: unchanged when register `rt` is now 0, a division by zero when it is not but the latched divisor is 0, and the truncated division otherwise. Its contract is empty; `Alu.DivAsWrittenDividesByZero` exhibits the divide by zero. |
| `Alu.DivAsWrittenDividesByZero` | mu-mips.c:541-546 | As written, with register `rt` now 1 but a latched divisor of 0, DIV divides by zero. The guarded division does nothing. |
| `Alu.SetLessThan` | mu-mips.c:567-573 | Intended SLT and SLTI: the result is 0 or 1. It is 1 exactly when `a` is below `b` after both are offset by 2^31 modulo 2^32, which is the signed order of the words. |
| `Alu.SltAsWritten` | mu-mips.c:567-573 | SLT as written: 1 when `a < b` as unsigned words, else 0. Its contract is empty; `Alu.SltAsWrittenUnsigned` exhibits the difference from the signed order. |
| `Alu.SltAsWrittenUnsigned` | mu-mips.c:567-573 | For 0xFFFFFFFF (that is, -1) against 0, SLT as written gives 0 and the signed comparison gives 1. |
| `Alu.SltiAsWritten` | mu-mips.c:588-594 | SLTI as written: 1 when the 32-bit difference of `a` and the extended immediate, taken to wrap, is negative as a signed word, else 0. Its contract is empty; `Alu.SltiAsWrittenWithoutOverflow` and `Alu.SltiAsWrittenOverflows` state when it is right and when it is not. |
| `Alu.SltiAsWrittenWithoutOverflow` | mu-mips.c:588-594 | SLTI as written agrees with the signed comparison whenever the 32-bit subtraction does not overflow. |
| `Alu.SltiAsWrittenOverflows` | mu-mips.c:588-594 | For 0x7FFFFFFF against immediate -1, SLTI as written gives 1 and the signed comparison gives 0. |
| `Alu.MergeByte` | mu-mips.c:792-797 | SB's merged word has the stored value's low byte and keeps the upper three bytes of the word in memory. |
| `Alu.MergeHalf` | mu-mips.c:798-803 | SH's merged word has the stored value's low half and keeps the upper half of the word in memory. |
| `Alu.AddSignExtended` | mu-mips.c:582-587 | Adding the extended immediate is adding its signed value, modulo 2^32. |
| `Alu.LuiIgnoresExtension` | mu-mips.c:595-596 | LUI's result is the low 16 bits of the immediate times 2^16, whether or not the immediate was extended. |
| `Memory.AssembleBytes` | mu-mips.c:57-62 | Splitting a word into its four bytes, least significant first, and assembling them as the read does gives the word back. |
| `Memory.BytesOfAssemble` | mu-mips.c:39-42 | Assembling four bytes and splitting the word gives the four bytes back. |
| `Memory.StoreAt` | mu-mips.c:57-62 | Storing a word changes only the four bytes at offset..offset+3. The word read at that offset afterwards is the stored word. |
| `Memory.ReadWord` | mu-mips.c:33-46 | `mem_read_32` on the memory as a value. Its contract is empty; `Memory.ReadUnmapped`, `Memory.ReadAfterWrite` and `Memory.ReadOtherAfterWrite` state what it returns. |
| `Memory.WriteWord` | mu-mips.c:51-65 | `mem_write_32` on the memory as a value: the layout is kept, and every region gets the word written at the address if it holds it, and is unchanged otherwise. |
| `Memory.ReadUnmapped` | mu-mips.c:33-46 | A read at an address that no region holds returns 0. |
| `Memory.WriteUnmapped` | mu-mips.c:51-65 | A write to an address that no region holds changes nothing. |
| `Memory.ReadAfterWrite` | mu-mips.c:33-65 | After a write at a mapped address, a read there returns the written word. |
| `Memory.ReadOtherAfterWrite` | mu-mips.c:33-65 | A write does not change the word read at any address whose four bytes do not overlap the written ones. |
| `Memory.CoversAsWritten` | mu-mips.c:37 | The region guard as written: the address lies between the region's `begin` and `end`, with only its first byte checked. Its contract is empty; `Memory.GuardAsWrittenOverruns` and `Memory.GuardsAgreeWhenAligned` state how it differs from the corrected guard. |
| `Memory.GuardAsWrittenOverruns` | mu-mips.c:37 | The guard as written accepts each of the last three byte addresses of a region. The corrected guard rejects them, and the last byte offset then lies past the region's buffer. |
| `Memory.GuardsAgreeWhenAligned` | mu-mips.c:37 | For regions whose size is a multiple of 4 and word-aligned addresses, the written and the corrected guard agree. |
| `Memory.Region.Store` | mu-mips.c:59-62 | The four byte assignments leave the region's array equal to the old bytes with the word stored at the offset. |
| `Memory.RegionTable.constructor` | mu-mips.c:271-278 | The table has the given region bounds, every byte zero, and fresh arrays. |
| `Memory.RegionTable.Read32` | mu-mips.c:33-46 | The region loop returns the word of the first region that holds the address, or 0, as `ReadWord` of the current contents says. |
| `Memory.RegionTable.Write32` | mu-mips.c:51-65 | After the loop, the contents are `WriteWord` of the old contents: every region holding the address has the word, and nothing else changed. |
| `Pipeline.Classify` | mu-mips.c:340-420 | The instruction class that the stage switches decide from the opcode and the function field. Its contract is empty; `Pipeline.ClassifyCodes` states that it inverts the instruction codes. |
| `Pipeline.ClassifyCodes` | mu-mips.c:340-420 | The stage switches' classification and the instruction codes are inverse: a known instruction's codes classify as it, and codes that classify as a known instruction are its codes. |
| `Pipeline.DecodeRegisterFormat` | mu-mips.c:487-578 | A register-format word built from an instruction's function code and register fields decodes as that instruction with those fields. |
| `Pipeline.DecodeImmediateFormat` | mu-mips.c:580-620 | An immediate-format word built from an instruction's opcode, registers and immediate decodes as that instruction with those fields. |
| `Pipeline.WbSpec` | mu-mips.c:327-425 | WB changes only the next state's registers, and at most one of them. |
| `Pipeline.WritebackDestination` | mu-mips.c:340-420 | Register-format results go to `rd`. ADDI, ADDIU, SLTI and LUI results go to `rt`, and loaded words go to `rt`. SYSCALL, stores and unknown words write nothing. |
| `Pipeline.MemAccess` | mu-mips.c:781-806 | Only SB, SH and SW change memory, and no access changes the region layout. |
| `Pipeline.MemSpec` | mu-mips.c:430-469 | MEM changes only memory and MEM/WB. MEM/WB receives the instruction word and the ALU output. Memory changes only for stores. |
| `Pipeline.StoreWordReadsBack` | mu-mips.c:804-806 | After SW at a mapped address, the word there is the stored operand. |
| `Pipeline.StoreByteReadsBack` | mu-mips.c:781-797 | After SB at a mapped address, the word there has the operand's low byte and its old upper bytes. MEM's access for an LB there then loads the operand's low byte, sign-extended, as the LMD it hands on. |
| `Pipeline.StoreHalfReadsBack` | mu-mips.c:785-803 | After SH at a mapped address, the word there has the operand's low half and its old upper half. MEM's access for an LH there then loads the operand's low half, sign-extended, as the LMD it hands on. |
| `Pipeline.Execute` | mu-mips.c:487-620 | No instruction's execution changes the next PC. Only SYSCALL can halt. |
| `Pipeline.ExecuteMoves` | mu-mips.c:509-553 | MFHI and MFLO write HI or LO into `rd` of the next state, change nothing else there, and hand the same value on as the ALU output: the correction in the finding for mu-mips.c:509-517 below. MTHI, MTLO, MULT, MULTU, DIV and DIVU hand on 0. |
| `Pipeline.MoveFromAsWritten` | mu-mips.c:509-517 | MFHI and MFLO in EX as written: HI or LO goes into `rd` of the next state, and the ALU output is whatever the uninitialised `output` holds (a parameter). Its contract is empty; `Pipeline.MoveFromAsWrittenLosesValue` states the consequence. |
| `Pipeline.MoveFromAsWrittenLosesValue` | mu-mips.c:353-360 | When an MFHI or MFLO reaches WB with an uninitialised output other than the value it moved, as written WB overwrites `rd` with that output. With the output `Execute` hands on, WB writes HI (or LO). |
| `Pipeline.ExSpec` | mu-mips.c:476-624 | EX changes only the next state, the run flag and EX/MEM, never the next PC. EX/MEM receives the instruction word and its `b` operand. |
| `Pipeline.ExHaltsIff` | mu-mips.c:504-508 | EX clears the run flag exactly for a SYSCALL while register 2 holds 10, and otherwise leaves it as it was. |
| `Pipeline.ExDivide` | mu-mips.c:541-546 | DIV with a zero `b` operand leaves HI and LO as they were. Otherwise LO and HI are the truncated quotient and the remainder of `a` by `b` read as signed (`IsTruncatedDivision`), and nothing else in the next state changes. |
| `Pipeline.ExDivideUnsigned` | mu-mips.c:548-553 | DIVU with register `rt` zero leaves HI and LO as they were. Otherwise LO and HI are the unsigned quotient and remainder of `rs` by `rt`. Nothing else in the next state changes. |
| `Pipeline.ExMultiply` | mu-mips.c:521-539 | After MULT, HI:LO read as a signed 64-bit value is the signed product. After MULTU, HI:LO is the unsigned product. Nothing else in the next state changes. |
| `Pipeline.IdSpec` | mu-mips.c:822-838 | ID changes only ID/EX. ID/EX receives the word, the current values of its `rs` and `rt` registers, and the immediate, whose signed value is that of the 16-bit field. |
| `Pipeline.ImmediateAsWritten` | mu-mips.c:827-838 | ID's immediate as written: the raw 16-bit field, unextended. Its contract is empty; `Pipeline.AddiImmediateAsWritten` exhibits the difference. |
| `Pipeline.AddiImmediateAsWritten` | mu-mips.c:826-838 | For ADDI with immediate 0xFFFF (that is, -1) on the value 5, the unextended immediate as written gives 0x10004, and the extended one gives 4. |
| `Pipeline.IfSpec` | mu-mips.c:857-861 | IF changes only IF/ID and the next PC. IF/ID gets the word at the current PC, and the next PC is the current one plus 4, modulo 2^32. |
| `Pipeline.PipelineSpec` | mu-mips.c:312-322 | `handle_pipeline`: WB, MEM, EX, ID and IF in that order, each on what the stages before it left. Its contract is empty; `Pipeline.CycleSpec`, `Pipeline.LatchesShift` and `Simulator.Simulator.HandlePipeline` state what it does. |
| `Pipeline.CycleSpec` | mu-mips.c:70-74 | After a cycle the current state equals the next state. The counter has gone up by exactly 1, the PC by 4 modulo 2^32, and the region layout is unchanged. |
| `Pipeline.LatchesShift` | mu-mips.c:312-322 | In one cycle IF/ID gets the word at the PC in memory as MEM left it. ID/EX gets the word from IF/ID and the current values of its `rs` and `rt`. EX/MEM gets the word and `b` from ID/EX and the ALU output EX computed from them. MEM/WB gets the word and ALU output from EX/MEM and the value MEM's access loaded. |
| `Pipeline.CycleWritesBack` | mu-mips.c:338-423 | After a cycle, the destination register of the ALU-result instruction that was in MEM/WB holds its ALU output. The exception is an MFHI or MFLO in EX of the same cycle that writes the same register. |
| `Pipeline.ResultReachesRegister` | mu-mips.c:312-322 | The ALU output EX computes for an instruction that writes one back is in its destination register (`rd` for register format, `rt` otherwise) after the third cycle. The same MFHI/MFLO exception applies. |
| `Pipeline.CycleHaltsIff` | mu-mips.c:504-508 | A cycle clears the run flag exactly when the instruction in EX is a SYSCALL and register 2 holds 10. |
| `Pipeline.StepsAdvance` | mu-mips.c:70-74 | After `n` cycles the counter has gone up by `n` and the PC by `4n`, modulo 2^32. |
| `Pipeline.FetchReachesWriteback` | mu-mips.c:312-322 | The word fetched in a cycle is the word in MEM/WB three cycles later, so WB acts on it in the fourth cycle after the fetch. The fetched word is the one at `pc + 4n`. |
| `Pipeline.Loop` | mu-mips.c:79-111 | The loop of `run` and `runAll`: at most `k` steps, each taken only while the flag is up. Its contract is empty; `Pipeline.RunCyclesStops` states what it does. |
| `Pipeline.RunCycles` | mu-mips.c:79-95 | `run(n)`: nothing while the flag is down, otherwise `Loop` for `n` steps. Its contract is empty; `Pipeline.RunCyclesStops` and `Pipeline.RunStops` state what it does. |
| `Pipeline.RunCyclesStops` | mu-mips.c:79-95 | For any step that counts one cycle, a run is `c` steps, where `c` is how far the counter went up. `c` is zero when the flag is down and at most `n`. Every step begins with the flag up, and the run stops early only when the flag is down. |
| `Pipeline.RunStops` | mu-mips.c:79-95 | The same for simulator cycles: run(n) does nothing when the flag is down, never does more than `n` cycles, and stops as soon as a SYSCALL clears the flag. |
| `Pipeline.RunCyclesAdd` | mu-mips.c:79-95 | A run of `j` cycles followed by a run of `k` is a run of `j + k`. |
| `Pipeline.StoreWordThenLoadWord` | mu-mips.c:430-469 | An LW directly behind an SW to the same mapped address loads the stored word one cycle later. |
| `Pipeline.ResetSpec` | mu-mips.c:244-265 | After reset, the registers, HI and LO are zero and the PC is the text base. The next state equals the current one, the flag is up, and nothing else changes. |
| `Pipeline.Initial` | mu-mips.c:867-872 | At start-up the flag is up, the counter is 0, the PC is the text base, and the next state equals the current one. The registers, HI, LO and all four latches are zero, as the simulator's zero-initialised globals are, and the memory is the given one. |
| `Simulator.CopyRegisters` | mu-mips.c:72 | The register part of `CURRENT_STATE = NEXT_STATE` leaves the target array equal to the source. |
| `Simulator.AccessMemory` | mu-mips.c:781-806 | The MEM switch returns the loaded value and leaves the memory that `MemAccess` prescribes. |
| `Simulator.Simulator.constructor` | mu-mips.c:867-872 | `initialize` gives zero-filled regions with the given bounds and the start-up state. |
| `Simulator.Simulator.WB` | mu-mips.c:327-425 | The WB method changes the simulator exactly as `WbSpec` says. |
| `Simulator.Simulator.MEM` | mu-mips.c:430-469 | The MEM method changes the simulator exactly as `MemSpec` says. |
| `Simulator.Simulator.EX` | mu-mips.c:476-624 | The EX method changes the simulator exactly as `ExSpec` says. |
| `Simulator.Simulator.ID` | mu-mips.c:820-838 | The ID method changes the simulator exactly as `IdSpec` says. |
| `Simulator.Simulator.IF` | mu-mips.c:857-861 | The IF method changes the simulator exactly as `IfSpec` says. |
| `Simulator.Simulator.HandlePipeline` | mu-mips.c:312-322 | The stages in the order WB, MEM, EX, ID, IF compose to `PipelineSpec`. |
| `Simulator.Simulator.Advance` | mu-mips.c:72-73 | The next state becomes the current one, the counter goes up by 1, and nothing else changes. |
| `Simulator.Simulator.Cycle` | mu-mips.c:70-74 | A cycle changes the simulator exactly as `CycleSpec` says. |
| `Simulator.Simulator.Run` | mu-mips.c:79-95 | The run loop changes the simulator exactly as `RunCycles` of `n` cycles says, so `RunStops` describes it. |
| `Simulator.Simulator.RunAll` | mu-mips.c:100-111 | Within its fuel, the runAll loop changes the simulator exactly as `RunCycles` says. |
| `Simulator.Simulator.ResetRegisters` | mu-mips.c:244-265 | The register part of reset changes the simulator exactly as `ResetSpec` says. |

## Left out

- Simulator.Simulator.RunAll: `runAll` loops for as long as the flag is up, which may be forever. The model takes a fuel bound and says nothing about a run that would need more cycles.
- Program loading (`load_program`), the memory-zeroing loop of `reset` and `INSTRUCTION_COUNT`: file I/O, and a counter that no code of the core increments. Memory contents are whatever the caller wrote.
- The region table `MEM_REGIONS`, `NUM_MEM_REGION` and `MEM_TEXT_BEGIN` are defined in `mu-mips.h`, which is not part of this model. The region bounds and the text base are parameters.
- `CYCLE_COUNT` is an unbounded natural number. Its declared width is in `mu-mips.h`, so wrap-around is not modelled.
- The diagnostic `printf` lines for unimplemented instructions, and the "Simulation Stopped" messages of `run` and `runAll`, print only. They are no-ops here, and so are the `default` fall-throughs after SLT and LW in WB, which only print.
- Compile errors are resolved as the surrounding code intends:
  - The undeclared `a`, `b` and `imm` in EX are the ID/EX operands and immediate.
  - The undeclared `rs`, `rt` and `rd` in EX are the instruction's fields.
  - The missing semicolons after MEM's loads are added.
  - `mem_write_32(alu) = b` is a store of `b`.
- AND, OR, NOR, ANDI, ORI and XORI appear only in the incoming side of EX. HEAD's EX does not implement them, so they are unknown instructions here.
- Pipeline.Execute: EX never sets `output` for MTHI, MTLO, MULT, MULTU, DIV and DIVU (mu-mips.c:512-553), so EX/MEM hands on an indeterminate value. WB still copies it into `rd` for all six (mu-mips.c:356-375). In the standard encoding of these instructions `rd` is register 0, so the program can leave an arbitrary non-zero value in register 0 for later instructions to read. The model fixes that value at 0 (`Pipeline.ExecuteMoves`), so `rd` gets 0 and the model does not describe the arbitrary value. MEM's `output` is indeterminate in the same way for instructions that load nothing; the model latches 0 as LMD, which WB never reads for them.
- Alu.Div: for -2^31 / -1, the `int32_t` division and remainder at mu-mips.c:544-545 overflow. C leaves that undefined, and on x86 the division traps. The model gives what a wrap-around implementation would: LO = 0x80000000 and HI = 0. `Alu.DivGuarded` and `Pipeline.ExDivide` inherit this.
- Alu.SltiAsWritten: the `int32_t` subtraction at mu-mips.c:589 can overflow, which C leaves undefined. The model takes it to wrap modulo 2^32. A compiler may instead fold the test into a signed comparison, and SLTI as written then gives the signed order.
- The rest of the simulator is not part of this model: the command interpreter, the dumps, `main` and `print_program`.

## Findings

| source | as written | input that shows it | evidently intended | confidence | as-written member | corrected member |
|---|---|---|---|---|---|---|
| mu-mips.c:496 | SRA tests `(b & 0x80000000) == 1`, which is never true, so every SRA is a logical shift | `b = 0x80000000`, `sa = 1` gives 0x40000000 | an arithmetic shift giving 0xC0000000 | high (not executed) | `Alu.SraAsWrittenLosesSign` | `Alu.ShiftRightArith` |
| mu-mips.c:568 | SLT compares the operands as unsigned words | `a = 0xFFFFFFFF` (-1), `b = 0` gives 0 | a signed comparison giving 1 | high (not executed) | `Alu.SltAsWrittenUnsigned` | `Alu.SetLessThan` |
| mu-mips.c:589 | SLTI decides by the sign of the 32-bit difference, which overflows | `a = 0x7FFFFFFF`, immediate -1 gives 1 | a signed comparison giving 0 | medium (not executed; assumes the overflowing subtraction wraps, which C leaves undefined) | `Alu.SltiAsWrittenOverflows` | `Alu.SetLessThan` |
| mu-mips.c:826-838 | ID extends an undeclared `immed` and latches the unextended field | ADDI with immediate 0xFFFF on 5 gives 0x10004 | the extended immediate, giving 4 | high (not executed) | `Pipeline.AddiImmediateAsWritten` | `Pipeline.IdSpec` |
| mu-mips.c:542-545 | DIV guards on register `rt` as it is now, but divides by the operand latched a cycle earlier | register `rt` now 1, latched divisor 0 divides by zero | guard on the divisor used, leaving HI and LO unchanged | medium (not executed) | `Alu.DivAsWrittenDividesByZero` | `Alu.DivGuarded` |
| mu-mips.c:37 | the region guard checks only `address <= end`, so offsets up to `offset+3` can run past the region | region 0x1000..0x1003, address 0x1003 touches offset 6 | all four bytes inside the region | high (not executed) | `Memory.GuardAsWrittenOverruns` | `Memory.RegionTable.Write32` |
| mu-mips.c:509-517 | MFHI and MFLO write `rd` in EX but never set `output`, so EX/MEM hands on an uninitialised value and WB (mu-mips.c:353-354, 359-360) overwrites `rd` with it | MFHI with HI = 5 while `output` holds 0: `rd` ends up 0 (likewise MFLO with LO) | `rd` keeps HI (or LO); the other side of the merge conflict stages the value through `IF_EX.C` at mu-mips.c:661 and 667 | high (not executed) | `Pipeline.MoveFromAsWrittenLosesValue` | `Pipeline.ExecuteMoves` |
