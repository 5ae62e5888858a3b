# mdpu in Dafny

This is a verified model of `mdpu`, a small register machine written in Rust.

The machine has three parts:

- **State store.** A `ProcessingUnit` holds a fixed-length bank of `i32` registers and a fixed-length `i32` memory. It also holds a stack pointer. The stack grows downward from the last memory cell and uses the same memory.
- **Fetch–execute loop.** `execute_program` runs a program of decoded instructions under an instruction budget. `run` then returns the registers and the live stack.
- **Text front end.** `parse_instruction` decodes one line of assembly into an instruction, and `parse_dimensions` reads sizes such as `4x4`.

Every error that makes the machine end the process is a typed fault in the model. This covers a register or address out of range, division by zero, stack overflow or underflow, and the budget running out.

Files:

- `int32.dfy` (`Int32`): Rust's `i32`. It covers the value range, truncated division and remainder, shifts, and the bitwise operators, each defined bit by bit on the 32-bit pattern.
- `isa.dfy` (`Isa`): the 33 opcodes and the decoded instruction.
- `semantics.dfy` (`Semantics`, `SemanticsFacts`): each operation of the state store as a pure function on machine states, and `Step`, the effect of one instruction. `Step` is grouped by operand shape: three-register, one-register, move, stack and control. The facts module proves these properties:
  - the frame of every instruction;
  - the cause of every fault;
  - how each instruction directs the loop.
- `unit.dfy` (`Unit`): the `ProcessingUnit` class. Its registers and memory are arrays and its stack pointer is a field. Each method is proved to leave the arrays in the state the pure function gives, or to report that function's fault with nothing changed.
- `engine.dfy` (`Engine`, `EngineFacts`): the loop as a `while` method over the class, proved against the recursive function `Execution`, and the snapshot `run` takes. The facts module proves the loop's step rules and some whole-program runs.
- `decode.dfy` (`Decode`): whitespace splitting, decimal syntax, the mnemonic table, `parse_instruction`, assembling a list of lines, and `parse_dimensions`.

Modelling choices:

- **Overflow.** An `i32` result out of range is the fault `Overflow`. So is a shift count outside 0..31. This is how Rust's debug build behaves: it panics. `MIN / -1` and `MIN % -1` panic in every build.
- **Uncounted jumps.** A taken `JMP`/`B`/`JZ`/`JNZ`/`BZ`/`BNZ` restarts the loop without counting. The budget therefore cannot bound a loop made only of such jumps. The loop function and the loop method take a `fuel` bound on the number of these jumps, and report `OutOfFuel` once it is spent.

Some behaviour of the code is easy to misread from the instruction set alone; the model follows the code:

- **Budget check order.** The end of the program is tested before the budget (`src/mdpu.rs:216-220`). A run whose last instruction uses the final unit of budget ends normally.
- **JE and JNE.** A taken `JE`/`JNE` is counted and then advanced, so the loop resumes at `addr + 1` (`src/mdpu.rs:255-268, 349-350`). Unlike the other jumps, they count as a step.
- **`JMP 0`.** With `JMP 0` at address 0, the budget never stops the run, because the jump is never counted (`EngineFacts.SelfJumpNeverEnds`). No budget of 1 or more turns it into `BudgetExceeded`. With budget 0 the loop stops with `BudgetExceeded` before it fetches anything (`src/mdpu.rs:217`).
- **The mnemonic `NOP`.** It has no arm in the mnemonic match, so a line reading `NOP` does not parse and is dropped from the program (`src/mdpu.rs:430-467`). Only a blank line or a `//` comment becomes a NOP.

## Model

| member | source | states |
|---|---|---|
| Int32.Rem | src/mdpu.rs:137-138 | the remainder is smaller in magnitude than the divisor |
| Int32.Quot | src/mdpu.rs:111 | Rust's `/` on integers, rounding toward zero; `QuotRem` and `QuotRemUnique` prove it is the truncated quotient |
| Int32.QuotRem | src/mdpu.rs:110-111 | quotient and remainder satisfy `a == b*q + r`; `\|r\| < \|b\|`; the remainder has the dividend's sign (Rust's truncating `/` and `%`) |
| Int32.QuotRemUnique | src/mdpu.rs:137-138 | truncated division is the only quotient/remainder pair with those three properties |
| Int32.QuotInRange | src/mdpu.rs:111 | the quotient of two `i32` values is out of range exactly for `MIN / -1` |
| Int32.ToUnsigned | src/mdpu.rs:273 | the 32-bit pattern of an `i32` lies in [0, 2^32); it equals x for x >= 0 and x + 2^32 otherwise |
| Int32.UnsignedRoundTrip | src/mdpu.rs:273 | the value–pattern conversions are inverse both ways |
| Int32.Wrap | src/mdpu.rs:296 | dropping the bits above bit 31 keeps the value modulo 2^32, and changes nothing in range |
| Int32.ShiftLeft | src/mdpu.rs:296 | Rust's `<<` on `i32`: `x * 2^n` with the bits above bit 31 dropped; `ShiftRoundTrip` proves it is exact multiplication when nothing is lost |
| Int32.ShiftRight | src/mdpu.rs:302 | the arithmetic shift keeps the sign of its operand |
| Int32.ShiftRoundTrip | src/mdpu.rs:296-302 | when no bit is lost, `x << n` is `x * 2^n` and `>> n` gives x back |
| Int32.AndBits | src/mdpu.rs:273 | Rust's `&` on the 32-bit patterns; `AndOrIdempotent` proves `x & x == x` |
| Int32.OrBits | src/mdpu.rs:279 | Rust's `\|` on the 32-bit patterns; `AndOrIdempotent` proves `x \| x == x` |
| Int32.XorBits | src/mdpu.rs:285 | Rust's `^` on the 32-bit patterns; `XorInvolution` and `XorSelfIsZero` prove its algebra |
| Int32.NotBits | src/mdpu.rs:290 | Rust's `!` on `i32`; `NotIsNegatedPredecessor` proves `!x == -x - 1` |
| Int32.NotIsNegatedPredecessor | src/mdpu.rs:290 | bitwise `!x` is `-x - 1` |
| Int32.XorInvolution | src/mdpu.rs:285 | XOR with the same operand twice restores the value |
| Int32.AndOrIdempotent | src/mdpu.rs:273-279 | `x & x == x` and `x \| x == x` |
| Int32.XorSelfIsZero | src/mdpu.rs:285 | `x ^ x == 0` |
| Semantics.Stack | src/mdpu.rs:204 | the live stack `memory[sp+1..]` has length `len - 1 - sp` |
| Semantics.Initialize | src/mdpu.rs:68-74 | capacities as requested; zero registers and zero cells; `sp == memory_size - 1`; empty stack |
| Semantics.EvalBinary | src/mdpu.rs:106-146 | the only faults are DivByZero and Overflow; DivByZero exactly for DIV/MOD by 0; AND/OR/XOR never fault; a nonzero DIV fails only for `MIN / -1` |
| Semantics.EvalUnary | src/mdpu.rs:121-131 | the only fault is Overflow; NOT never faults |
| Semantics.DivModIdentity | src/mdpu.rs:106-146 | nonzero DIV and MOD (other than `MIN / -1`) succeed with the truncated quotient and remainder |
| Semantics.Binary | src/mdpu.rs:85-119 | the three-register opcodes: all three registers checked, then `reg3 := reg1 op reg2` or the op's fault; `BinaryValue`, `BinaryStep` and `BinaryBehaves` prove it |
| Semantics.Unary | src/mdpu.rs:121-344 | NEG/ABS/NOT check reg1 and reg2 and write reg2; INC/DEC check reg1 only and write it back; the result is `op src` or Overflow; `UnaryValue`, `UnaryStep` and `UnaryBehaves` prove it |
| Semantics.BinaryValue | src/mdpu.rs:85-90 | with registers in range, reg3 gets the computed value and nothing else changes, or the value's fault is reported |
| Semantics.UnaryValue | src/mdpu.rs:121-125 | with registers in range, the target gets the computed value and nothing else changes, or Overflow is reported |
| Semantics.Store | src/mdpu.rs:149-157 | register checked before address, then `memory[addr] := reg`; `MoveStep` proves it |
| Semantics.Load | src/mdpu.rs:159-167 | register checked before address, then `reg := memory[addr]`; `MoveStep` proves it |
| Semantics.Mov | src/mdpu.rs:192-196 | both registers checked, then `reg1 := reg2`; `MoveStep` proves it |
| Semantics.LoadImmediate | src/mdpu.rs:230-233 | register checked, then `reg1 := immediate`; `MoveStep` proves it |
| Semantics.Push | src/mdpu.rs:170-179 | register checked first; succeeds iff `sp > 0`, else StackOverflow; the new stack is the value on top of the old; sp decreases by one; registers unchanged |
| Semantics.Pop | src/mdpu.rs:181-190 | register checked first; succeeds iff the stack is non-empty, else StackUnderflow; the top moves into the register; sp increases by one; memory unchanged |
| Semantics.PushPopRoundTrip | src/mdpu.rs:170-190 | a PUSH of r then a POP into q sets q to r's value and restores sp and the stack |
| Semantics.Branch | src/mdpu.rs:236-268 | the jumps, NOP and HALT keep the state and can fault only with OutOfBounds |
| Semantics.Step | src/mdpu.rs:223-347 | a step keeps the machine valid, never changes the number of registers or memory cells, and never reports BudgetExceeded |
| Semantics.BinaryOf | src/mdpu.rs:269-315 | the operator of each three-register opcode, with CMP computed as SUB and TEST as AND; `BinaryStep` states the resulting effect |
| SemanticsFacts.BinaryStep | src/mdpu.rs:269-315 | three-register opcodes: any register out of range gives OutOfBounds; otherwise `reg3 := reg1 op reg2` alone, or the op's fault |
| SemanticsFacts.UnaryStep | src/mdpu.rs:334-344 | NEG/ABS/NOT write reg2 and INC/DEC write reg1, after bounds checks; the only other fault is Overflow |
| SemanticsFacts.MoveStep | src/mdpu.rs:149-196 | STORE/LOAD/MOV/LI succeed iff their register (and address) are in range; on success exactly one cell or register changes, to the moved value |
| SemanticsFacts.PushWritesOneCell | src/mdpu.rs:170-179 | a push changes only the cell at the old stack pointer |
| SemanticsFacts.BinaryBehaves | src/mdpu.rs:269-315 | the three-register family obeys the bounds rule, the frame and the fault causes |
| SemanticsFacts.UnaryBehaves | src/mdpu.rs:287-344 | the one-register family obeys the bounds rule, the frame and the fault causes |
| SemanticsFacts.MoveBehaves | src/mdpu.rs:149-196 | STORE/LOAD/MOV/LI obey the bounds rule, the frame and the fault causes |
| SemanticsFacts.StackBehaves | src/mdpu.rs:170-190 | PUSH/POP obey the bounds rule, the frame and the fault causes |
| SemanticsFacts.ControlBehaves | src/mdpu.rs:236-346 | the jumps, NOP and HALT obey the bounds rule, the frame and the fault causes |
| SemanticsFacts.StepBehaves | src/mdpu.rs:223-347 | every instruction obeys the bounds rule, the frame and the fault causes |
| SemanticsFacts.BadRegisterFaults | src/mdpu.rs:77-82 | any operand register out of range gives OutOfBounds, whatever the opcode would otherwise do |
| SemanticsFacts.FaultCauses | src/mdpu.rs:77-190 | OutOfBounds iff an operand or address is out of range; DivByZero only for DIV/MOD with `reg2 == 0`; StackOverflow only for PUSH at `sp == 0`; StackUnderflow only for POP on an empty stack; Overflow only for arithmetic opcodes |
| SemanticsFacts.DivisionByZero | src/mdpu.rs:106-119 | DIV/MOD with a zero divisor always fault with DivByZero |
| SemanticsFacts.StepFrame | src/mdpu.rs:223-347 | only destination registers change; only STORE and PUSH change memory, one cell each; only PUSH and POP move sp |
| SemanticsFacts.BranchDirects | src/mdpu.rs:236-268 | for the control family: HALT stops, taken jumps go to `addr`, and the state is kept |
| SemanticsFacts.StepControl | src/mdpu.rs:223-350 | Stop iff HALT; an uncounted jump iff JMP/B/JZ/JNZ/BZ/BNZ is taken; a jump-then-advance iff JE/JNE is taken; only advancing steps change state |
| Unit.ProcessingUnit.Initialize | src/mdpu.rs:68-74 | the arrays are fresh and hold `Semantics.Initialize` |
| Unit.ProcessingUnit.CheckRegisterBounds | src/mdpu.rs:77-82 | succeeds iff the index is below the register count, otherwise OutOfBounds |
| Unit.ProcessingUnit.ApplyBinary | src/mdpu.rs:269-274 | the arrays end as `Semantics.Binary` says, or the fault is reported with nothing changed |
| Unit.ProcessingUnit.ApplyUnary | src/mdpu.rs:287-291 | the arrays end as `Semantics.Unary` says, or the fault is reported with nothing changed |
| Unit.ProcessingUnit.Add | src/mdpu.rs:85-90 | as `Semantics.Binary` with ADD |
| Unit.ProcessingUnit.Subtract | src/mdpu.rs:92-97 | as `Semantics.Binary` with SUB |
| Unit.ProcessingUnit.Multiply | src/mdpu.rs:99-104 | as `Semantics.Binary` with MUL |
| Unit.ProcessingUnit.Divide | src/mdpu.rs:106-119 | as `Semantics.Binary` with DIV |
| Unit.ProcessingUnit.ModOp | src/mdpu.rs:133-146 | as `Semantics.Binary` with MOD |
| Unit.ProcessingUnit.Neg | src/mdpu.rs:121-125 | as `Semantics.Unary` with NEG |
| Unit.ProcessingUnit.Absolute | src/mdpu.rs:127-131 | as `Semantics.Unary` with ABS |
| Unit.ProcessingUnit.Store | src/mdpu.rs:149-157 | as `Semantics.Store`: register first, then address |
| Unit.ProcessingUnit.Load | src/mdpu.rs:159-167 | as `Semantics.Load`: register first, then address |
| Unit.ProcessingUnit.Push | src/mdpu.rs:170-179 | as `Semantics.Push`, on the memory array and the stack-pointer field |
| Unit.ProcessingUnit.Pop | src/mdpu.rs:181-190 | as `Semantics.Pop`, on the memory array and the stack-pointer field |
| Unit.ProcessingUnit.Mov | src/mdpu.rs:192-196 | as `Semantics.Mov` |
| Unit.ProcessingUnit.LoadImmediate | src/mdpu.rs:230-233 | as `Semantics.LoadImmediate` |
| Engine.Iteration | src/mdpu.rs:222-350 | one pass keeps the machine valid and its shape; a resumed pass either spends fuel or counts exactly one instruction, within the budget |
| Engine.Execution | src/mdpu.rs:211-352 | the final state is valid and has the initial capacities |
| Engine.ExecuteFrom | src/mdpu.rs:212-214 | a run keeps the machine valid and its shape |
| Engine.Snapshot | src/mdpu.rs:204-207 | the snapshot holds the registers and the live stack, of length `len - 1 - sp` |
| Engine.DispatchBinary | src/mdpu.rs:269-315 | the arms for the three-register opcodes leave the unit as `Semantics.Binary` says |
| Engine.DispatchUnary | src/mdpu.rs:334-344 | the arms for the one-register opcodes leave the unit as `Semantics.Unary` says |
| Engine.Dispatch | src/mdpu.rs:222-347 | the `match` leaves the unit in `Step`'s state and returns its control decision, or the fault with nothing changed |
| Engine.Cycle | src/mdpu.rs:222-350 | one loop pass finishes or resumes exactly as `Iteration` says |
| Engine.ExecuteProgram | src/mdpu.rs:211-352 | the loop's result and final unit state are `ExecuteFrom` of the initial state |
| Engine.Run | src/mdpu.rs:200-208 | the run's result, its final state and the snapshot of that state |
| EngineFacts.LoopStops | src/mdpu.rs:216-220 | leaving the program ends normally; otherwise an exhausted budget gives BudgetExceeded; a faulting step stops with the state it found |
| EngineFacts.LoopIteration | src/mdpu.rs:236-350 | HALT finishes unchanged; a taken uncounted jump moves to `addr` with the count kept; any other step counts one and moves to `ip + 1`, or to `addr + 1` for a taken JE/JNE |
| EngineFacts.IterationFuel | src/mdpu.rs:222-350 | one loop pass under more fuel finishes the same way, unless the smaller fuel ran out, or resumes at the same configuration with the extra fuel kept |
| EngineFacts.FuelMonotone | src/mdpu.rs:211-352 | a run that does not report OutOfFuel gives the same result under any larger fuel, so the result does not depend on the bound |
| EngineFacts.SelfJumpNeverEnds | src/mdpu.rs:236-239 | once the budget is at least 1, `JMP 0` alone runs out of any fuel: the budget never stops it |
| EngineFacts.HaltFirst | src/mdpu.rs:346 | HALT first leaves zero registers and an empty stack |
| EngineFacts.PushRun | src/mdpu.rs:170-179 | k pushes in a row end normally with sp lowered by k when k <= sp, and otherwise fault with StackOverflow once sp reaches 0 |
| EngineFacts.PushesFromEmpty | src/mdpu.rs:170-179 | on a fresh unit, `memory_size - 1` pushes end normally with that many values on the stack, and `memory_size` pushes fault with StackOverflow |
| EngineFacts.LoadsThenArithmetic | src/mdpu.rs:224-233 | LI, LI, then ADD/SUB/MUL leaves the exact result in reg3, or Overflow |
| Decode.WordLength | src/mdpu.rs:417 | the front run of non-whitespace ends at whitespace or at the end |
| Decode.IsWhitespace | src/mdpu.rs:417 | the Unicode White_Space characters `split_whitespace` splits on; `SplitWhitespace` and `SplitJoinWords` state the splitting |
| Decode.SplitWhitespace | src/mdpu.rs:417 | every part is a non-empty word without whitespace |
| Decode.SplitJoinWords | src/mdpu.rs:417 | splitting words joined by spaces gives the words back |
| Decode.ParseUsize | src/mdpu.rs:469-472 | values fit in 64 bits; empty, `+` alone and negative texts are rejected |
| Decode.ParseI32 | src/mdpu.rs:473 | empty or sign-only texts are rejected; the value's sign follows the text's sign |
| Decode.ParseUsizeOfDecimal | src/mdpu.rs:469-472 | every `usize` reads back from its decimal text, with or without `+` |
| Decode.ParseI32OfDecimal | src/mdpu.rs:473 | every `i32` reads back from its decimal text |
| Decode.ParseUsizeRejectsLarge | src/mdpu.rs:469-472 | a decimal text above 64 bits is rejected |
| Decode.OpcodeOf | src/mdpu.rs:430-467 | the mnemonic match; `MnemonicTable` proves that every opcode name except NOP maps to its opcode |
| Decode.Mnemonic | src/mdpu.rs:430-462 | every opcode's name is a single word that is not a comment |
| Decode.MnemonicTable | src/mdpu.rs:430-467 | the table maps every opcode's name back to it, except NOP, which is absent |
| Decode.ImmediateField | src/mdpu.rs:473 | operand 5 as an `i32`, 0 when missing or unparsable; `ParseWords` places it as the immediate |
| Decode.UsizeField | src/mdpu.rs:469-472 | an operand field is at most 64 bits |
| Decode.ParseInstruction | src/mdpu.rs:416-483 | decoded register and address fields fit in `usize` |
| Decode.NopNewlineNeverMatches | src/mdpu.rs:419 | the `"NOP\n"` prefix test never fires, since no word holds a newline |
| Decode.ParseInstructionNone | src/mdpu.rs:419-467 | no instruction iff the first word is neither a comment nor a known mnemonic; a line reading `NOP` gives none |
| Decode.IsFiller | src/mdpu.rs:419 | the blank, `//` and `"NOP\n"` prefix test; `NopNewlineNeverMatches` proves the third test never fires and `FillerIsNop` gives the NOP it yields |
| Decode.FillerIsNop | src/mdpu.rs:419-428 | a blank or `//` line becomes NOP with all operands 0 |
| Decode.BareMnemonic | src/mdpu.rs:469-473 | a mnemonic alone gives every operand 0 |
| Decode.ParseWords | src/mdpu.rs:469-473 | for a known mnemonic, words 1 to 4 become reg1, reg2, reg3 and addr as `usize` and word 5 the immediate as `i32`, each 0 when missing or unparsable |
| Decode.ParseFormat | src/mdpu.rs:416-483 | every non-NOP instruction with `usize` fields reads back from its canonical text |
| Decode.Assemble | src/mdpu.rs:404-410 | the program has at most one instruction per line |
| Decode.AssembleEveryLine | src/mdpu.rs:404-410 | when every line parses, instruction j is line j's |
| Decode.AssembleAppend | src/mdpu.rs:404-410 | assembling concatenated line lists concatenates the programs |
| Decode.SplitOn | src/mdpu.rs:357 | at least one part, none containing the separator |
| Decode.SplitJoinOn | src/mdpu.rs:357 | splitting parts joined by the separator gives them back |
| Decode.CheckedProduct | src/mdpu.rs:363 | a checked product is the product and fits in 64 bits |
| Decode.CheckedProductFits | src/mdpu.rs:363 | with no zero size, the checked product succeeds iff the product fits |
| Decode.ParseParts | src/mdpu.rs:358-362 | each part parses to the corresponding size |
| Decode.ParseDimensions | src/mdpu.rs:355-364 | a parsed dimension fits in 64 bits |
| Decode.ParseDimensionsOfDecimals | src/mdpu.rs:355-364 | nonzero sizes in `AxB` form give their product when it fits, and fail when it does not |
| Decode.EmptyPartRejected | src/mdpu.rs:358-361 | an empty part (as in `4x`) makes the parse fail |

## Left out

- `main` and `load_program` are not modelled beyond `Decode.Assemble`. That means no file opening, line reading, or printing of registers and stack. A line that fails to read as UTF-8 is skipped by `load_program`; the model takes the lines as given.
- Diagnostic messages on standard error are not modelled. Each `process::exit(1)` and each panic is a `Fault` (or `None` in the front end) carrying only its kind.
- Overflow follows Rust's debug build, where it panics. This covers `+ - *`, negating or taking `abs` of `i32::MIN`, INC/DEC at the extremes, and shift counts outside 0..31. A release build would wrap these, or mask the shift count; that variant is not modelled.
- `MIN / -1` and `MIN % -1` panic in every build profile, since Rust checks division overflow regardless of overflow checks. For these two the `Overflow` fault is exact.
- `usize` register indices and addresses are unbounded naturals in the machine. Only the decoder bounds them, at 64 bits. `instruction_count += 1` cannot overflow before the budget stops it. `instruction_pointer += 1` after a taken JE/JNE to address `usize::MAX` panics in a debug build (`src/mdpu.rs:350`); the model resumes at 2^64 instead, outside the program, and ends normally.
- Engine.Execution: a run is cut off after `fuel` uncounted jumps (taken JMP/B/JZ/JNZ/BZ/BNZ) and reported as `OutOfFuel`. This applies to runs the machine never ends, and also to runs that end but need more such jumps than the fuel allows. For example, a countdown loop closed by `JNZ` ends in the machine but gives `OutOfFuel` with fuel 1. `EngineFacts.FuelMonotone` proves that any other result stays the same under every larger fuel. The model does not prove that enough fuel exists for every run the machine ends.
- Semantics.Initialize: requires `memory_size >= 1`. With memory size 0, `memory_size - 1` underflows and the machine panics before running anything.
- Decode.IsWhitespace: `split_whitespace` uses Unicode White_Space, written out by code point. There is no normalisation, and `lines()` splitting and the line terminator are not modelled.
- Decode.MnemonicTable: proves that every name maps to its opcode. It does not prove the converse, that only those 32 names are recognised; `Decode.OpcodeOf` states that table itself.
- Decode.CheckedProduct: overflow of `product()` is modelled as a failure, like a panic in a debug build. A release build would wrap.
- Int32.Bitwise: `&`, `|`, `^` and `!` are defined bit by bit on the unsigned 32-bit pattern, by arithmetic, rather than through `bv32`.
