/** The fetch-execute loop (`execute_program`) and the final snapshot
    (`run`). The loop keeps an instruction pointer and an instruction count;
    it stops when the pointer leaves the program, on HALT, on a fault, or
    when the count reaches the budget at the top of an iteration.

    Taken JMP/B/JZ/JNZ/BZ/BNZ restart the loop without counting, so the
    budget does not bound a loop made of such jumps (`JMP 0` at address 0
    never stops). The model therefore gives the loop a `fuel` bound on the
    number of those uncounted jumps and reports OutOfFuel when it is spent;
    every other iteration is bounded by the budget. */
module Engine {
  import opened Int32
  import opened Isa
  import opened Semantics
  import opened Unit

  /** How a run ends. OutOfFuel is a run cut off after more than `fuel`
      uncounted jumps, whether or not the machine would stop. */
  datatype Termination = Ended | Faulted(fault: Fault) | OutOfFuel

  /** The loop's variables and the machine. */
  datatype Config = Config(ip: nat, count: nat, state: State)

  /** What `run` hands back: the register bank and the live stack. */
  datatype ProcessingUnitState = ProcessingUnitState(registers: seq<i32>, stack: seq<i32>)

  /** What one pass of the loop body leaves: the loop has finished, or it
      resumes from a configuration with some fuel left. */
  datatype Progress = Finished(termination: Termination, state: State) | Resume(config: Config, fuel: nat)

  /** One pass of the loop body at an instruction inside the program and
      under the budget: a fault or HALT finishes; an advancing instruction
      counts and moves to the next address; a taken JE/JNE counts and moves
      past its target; a taken JMP/B/JZ/JNZ/BZ/BNZ moves to its target
      without counting, spending one unit of fuel. */
  function Iteration(program: seq<Instruction>, mic: nat, c: Config, fuel: nat): (p: Progress)
    requires Valid(c.state) && c.count < mic && c.ip < |program|
    ensures p.Finished? ==> Valid(p.state) && SameShape(c.state, p.state)
    ensures p.Resume? ==>
      Valid(p.config.state) && SameShape(c.state, p.config.state) && p.config.count <= mic &&
      (p.fuel < fuel || (p.fuel == fuel && p.config.count == c.count + 1))
  {
    match Step(c.state, program[c.ip])
    case Fail(f) => Finished(Faulted(f), c.state)
    case Ok(Transition(control, t)) =>
      match control
      case Stop => Finished(Ended, t)
      case Advance => Resume(Config(c.ip + 1, c.count + 1, t), fuel)
      case JumpThenAdvance(target) => Resume(Config(target + 1, c.count + 1, t), fuel)
      case Jump(target) =>
        if fuel == 0 then Finished(OutOfFuel, t)
        else Resume(Config(target, c.count, t), fuel - 1)
  }

  /** The loop from configuration c, with `fuel` uncounted jumps left; the
      final state is the state when the loop stopped (for a fault, the state
      before the faulting instruction). */
  function Execution(program: seq<Instruction>, mic: nat, c: Config, fuel: nat): (r: (Termination, State))
    requires Valid(c.state) && c.count <= mic
    ensures Valid(r.1) && SameShape(c.state, r.1)
    decreases fuel, mic - c.count
  {
    if c.ip >= |program| then (Ended, c.state)
    else if c.count >= mic then (Faulted(BudgetExceeded), c.state)
    else
      match Iteration(program, mic, c, fuel)
      case Finished(t, s) => (t, s)
      case Resume(next, left) => Execution(program, mic, next, left)
  }

  /** A whole run from a machine state: the loop starts at instruction 0 with
      count 0. */
  function ExecuteFrom(s: State, program: seq<Instruction>, mic: nat, fuel: nat): (r: (Termination, State))
    requires Valid(s)
    ensures Valid(r.1) && SameShape(s, r.1)
  {
    Execution(program, mic, Config(0, 0, s), fuel)
  }

  /** The snapshot `run` takes: all registers and memory above the stack
      pointer. */
  function Snapshot(s: State): (snap: ProcessingUnitState)
    requires Valid(s)
    ensures snap.registers == s.registers && snap.stack == Stack(s)
    ensures |snap.stack| == |s.memory| - 1 - s.sp
  {
    ProcessingUnitState(s.registers, s.memory[s.sp + 1..])
  }

  /** The arms of the loop's `match` for the three-register opcodes. */
  method DispatchBinary(pu: ProcessingUnit, instr: Instruction) returns (st: Outcome<()>)
    requires pu.Valid() && IsBinary(instr.opcode)
    modifies pu.registers
    ensures pu.Valid()
    ensures pu.Reflects(Binary(old(pu.State()), BinaryOf(instr.opcode), instr.reg1, instr.reg2, instr.reg3),
                        st, old(pu.State()))
  {
    var r1, r2, r3 := instr.reg1, instr.reg2, instr.reg3;
    match instr.opcode
    case Add => st := pu.Add(r1, r2, r3);
    case Sub => st := pu.Subtract(r1, r2, r3);
    case Mul => st := pu.Multiply(r1, r2, r3);
    case Div => st := pu.Divide(r1, r2, r3);
    case And => st := pu.ApplyBinary(AndOp, r1, r2, r3);
    case Or => st := pu.ApplyBinary(OrOp, r1, r2, r3);
    case Xor => st := pu.ApplyBinary(XorOp, r1, r2, r3);
    case Shl => st := pu.ApplyBinary(ShlOp, r1, r2, r3);
    case Shr => st := pu.ApplyBinary(ShrOp, r1, r2, r3);
    case Cmp => st := pu.ApplyBinary(SubOp, r1, r2, r3);
    case Test => st := pu.ApplyBinary(AndOp, r1, r2, r3);
    case Mod => st := pu.ModOp(r1, r2, r3);
  }

  /** The arms of the loop's `match` for NEG, ABS, NOT, INC and DEC. */
  method DispatchUnary(pu: ProcessingUnit, instr: Instruction) returns (st: Outcome<()>)
    requires pu.Valid() && IsUnary(instr.opcode)
    modifies pu.registers
    ensures pu.Valid()
    ensures pu.Reflects(Unary(old(pu.State()), UnaryOf(instr.opcode), instr.reg1, UnaryTarget(instr)),
                        st, old(pu.State()))
  {
    var r1, r2 := instr.reg1, instr.reg2;
    match instr.opcode
    case Not => st := pu.ApplyUnary(NotOp, r1, r2);
    case Neg => st := pu.Neg(r1, r2);
    case Abs => st := pu.Absolute(r1, r2);
    case Inc => st := pu.ApplyUnary(IncOp, r1, r1);
    case Dec => st := pu.ApplyUnary(DecOp, r1, r1);
  }

  /** Performs one instruction on the unit (the `match` inside the loop). */
  method Dispatch(pu: ProcessingUnit, instr: Instruction) returns (o: Outcome<Control>)
    requires pu.Valid()
    modifies pu`stackPointer, pu.registers, pu.memory
    ensures pu.Valid()
    ensures var r := Step(old(pu.State()), instr);
      if r.Ok? then o == Ok(r.value.control) && pu.State() == r.value.state
      else o == Fail(r.fault) && pu.State() == old(pu.State())
  {
    var r1, r2 := instr.reg1, instr.reg2;
    var st: Outcome<()> := Ok(());
    if IsBinary(instr.opcode) {
      st := DispatchBinary(pu, instr);
    } else if IsUnary(instr.opcode) {
      st := DispatchUnary(pu, instr);
    } else {
      match instr.opcode
      case Store => st := pu.Store(r1, instr.addr);
      case Load => st := pu.Load(instr.addr, r1);
      case LoadImmediate => st := pu.LoadImmediate(r1, instr.immediate);
      case Push => st := pu.Push(r1);
      case Pop => st := pu.Pop(r1);
      case Jmp | B => return Ok(Jump(instr.addr));
      case Jz | Bz =>
        st := pu.CheckRegisterBounds(r1);
        if st.Ok? && pu.registers[r1] == 0 { return Ok(Jump(instr.addr)); }
      case Jnz | Bnz =>
        st := pu.CheckRegisterBounds(r1);
        if st.Ok? && pu.registers[r1] != 0 { return Ok(Jump(instr.addr)); }
      case Mov => st := pu.Mov(r1, r2);
      case Je =>
        st := pu.CheckRegisterBounds(r1);
        if st.Ok? { st := pu.CheckRegisterBounds(r2); }
        if st.Ok? && pu.registers[r1] == pu.registers[r2] { return Ok(JumpThenAdvance(instr.addr)); }
      case Jne =>
        st := pu.CheckRegisterBounds(r1);
        if st.Ok? { st := pu.CheckRegisterBounds(r2); }
        if st.Ok? && pu.registers[r1] != pu.registers[r2] { return Ok(JumpThenAdvance(instr.addr)); }
      case Nop =>
      case Halt => return Ok(Stop);
      case _ => assert false;
    }
    o := if st.Ok? then Ok(Advance) else Fail(st.fault);
  }

  /** One pass of the loop body at instruction ip, under the budget: the
      instruction's arm either ends the loop with t, or leaves the next
      instruction pointer, count and fuel. */
  method Cycle(pu: ProcessingUnit, program: seq<Instruction>, mic: nat, ip: nat, count: nat, left: nat)
    returns (finished: bool, t: Termination, ip': nat, count': nat, left': nat)
    requires pu.Valid() && ip < |program| && count < mic
    modifies pu`stackPointer, pu.registers, pu.memory
    ensures pu.Valid()
    ensures Iteration(program, mic, Config(ip, count, old(pu.State())), left) ==
      if finished then Finished(t, pu.State()) else Resume(Config(ip', count', pu.State()), left')
  {
    var o := Dispatch(pu, program[ip]);
    match o {
      case Fail(f) =>
        return true, Faulted(f), ip, count, left;
      case Ok(Stop) =>
        return true, Ended, ip, count, left;
      case Ok(Jump(target)) =>
        if left == 0 {
          return true, OutOfFuel, ip, count, left;
        }
        return false, Ended, target, count, left - 1;
      case Ok(JumpThenAdvance(target)) =>
        return false, Ended, target + 1, count + 1, left;
      case Ok(Advance) =>
        return false, Ended, ip + 1, count + 1, left;
    }
  }

  /** The fetch-execute loop. */
  method ExecuteProgram(pu: ProcessingUnit, program: seq<Instruction>, mic: nat, fuel: nat)
    returns (t: Termination)
    requires pu.Valid()
    modifies pu`stackPointer, pu.registers, pu.memory
    ensures pu.Valid()
    ensures (t, pu.State()) == ExecuteFrom(old(pu.State()), program, mic, fuel)
  {
    var ip: nat, count: nat, left: nat := 0, 0, fuel;
    while ip < |program|
      invariant pu.Valid() && count <= mic
      invariant Execution(program, mic, Config(ip, count, pu.State()), left)
             == ExecuteFrom(old(pu.State()), program, mic, fuel)
      decreases left, mic - count
    {
      if count >= mic {
        return Faulted(BudgetExceeded);
      }
      var finished;
      finished, t, ip, count, left := Cycle(pu, program, mic, ip, count, left);
      if finished {
        return;
      }
    }
    t := Ended;
  }

  /** `run`: executes the program and takes the snapshot. */
  method Run(pu: ProcessingUnit, program: seq<Instruction>, mic: nat, fuel: nat)
    returns (t: Termination, snapshot: ProcessingUnitState)
    requires pu.Valid()
    modifies pu`stackPointer, pu.registers, pu.memory
    ensures pu.Valid()
    ensures var r := ExecuteFrom(old(pu.State()), program, mic, fuel);
      t == r.0 && pu.State() == r.1 && snapshot == Snapshot(r.1)
  {
    t := ExecuteProgram(pu, program, mic, fuel);
    snapshot := ProcessingUnitState(pu.registers[..], pu.memory[pu.stackPointer + 1..]);
  }
}

module EngineFacts {
  import opened Int32
  import opened Isa
  import opened Semantics
  import opened SemanticsFacts
  import opened Engine

  /** Where the loop stops: the program's end is checked before the budget,
      the budget check is the only source of BudgetExceeded, and a faulting
      instruction stops the loop with the state it found. */
  lemma LoopStops(program: seq<Instruction>, mic: nat, c: Config, fuel: nat)
    requires Valid(c.state) && c.count <= mic
    ensures c.ip >= |program| ==> Execution(program, mic, c, fuel) == (Ended, c.state)
    ensures c.ip < |program| && c.count >= mic ==>
      Execution(program, mic, c, fuel) == (Faulted(BudgetExceeded), c.state)
    ensures c.ip < |program| && c.count < mic && Step(c.state, program[c.ip]).Fail? ==>
      Execution(program, mic, c, fuel) == (Faulted(Step(c.state, program[c.ip]).fault), c.state)
  {
  }

  /** The step rules of the loop for an instruction that succeeds: HALT
      stops with the state unchanged; a taken JMP/B/JZ/JNZ/BZ/BNZ sets the
      pointer to its target and leaves the count alone; every other
      instruction adds one to the count and continues at the next address,
      except that a taken JE/JNE continues after its target. */
  lemma LoopIteration(program: seq<Instruction>, mic: nat, c: Config, fuel: nat)
    requires Valid(c.state) && c.count < mic && c.ip < |program|
    requires Step(c.state, program[c.ip]).Ok?
    ensures var instr, t := program[c.ip], Step(c.state, program[c.ip]).value.state;
      var op, taken, p := instr.opcode, BranchTaken(c.state, instr), Iteration(program, mic, c, fuel);
      (op == Halt ==> p == Finished(Ended, c.state)) &&
      (IsUncountedJump(op) && taken ==>
        p == if fuel == 0 then Finished(OutOfFuel, c.state) else Resume(Config(instr.addr, c.count, c.state), fuel - 1)) &&
      (op != Halt && !(IsUncountedJump(op) && taken) ==>
        p == Resume(Config(if IsCountedJump(op) && taken then instr.addr + 1 else c.ip + 1, c.count + 1, t), fuel))
  {
    StepControl(c.state, program[c.ip]);
  }

  /** One pass under more fuel: the same finish, unless the smaller fuel
      ran out, and otherwise the same next configuration with at least as
      much fuel left. */
  lemma IterationFuel(program: seq<Instruction>, mic: nat, c: Config, f: nat, g: nat)
    requires Valid(c.state) && c.count < mic && c.ip < |program| && f <= g
    ensures var p, q := Iteration(program, mic, c, f), Iteration(program, mic, c, g);
      (p.Finished? && p.termination != OutOfFuel ==> q == p) &&
      (p.Resume? ==> q.Resume? && q.config == p.config && p.fuel <= q.fuel && q.fuel - p.fuel == g - f)
  {
  }

  /** More fuel changes nothing about a run that did not run out of it: a
      result other than OutOfFuel is the result of every larger fuel, so it
      does not depend on the bound. */
  lemma {:induction false} FuelMonotone(program: seq<Instruction>, mic: nat, c: Config, f: nat, g: nat)
    requires Valid(c.state) && c.count <= mic && f <= g
    requires Execution(program, mic, c, f).0 != OutOfFuel
    ensures Execution(program, mic, c, g) == Execution(program, mic, c, f)
    decreases f, mic - c.count
  {
    if c.ip < |program| && c.count < mic {
      IterationFuel(program, mic, c, f, g);
      var p, q := Iteration(program, mic, c, f), Iteration(program, mic, c, g);
      if p.Resume? {
        FuelMonotone(program, mic, p.config, p.fuel, q.fuel);
      }
    }
  }

  /** `JMP 0` as the only instruction never finishes once the budget allows
      one iteration: the jump is never counted, so neither the budget nor
      the end of the program stops it. */
  lemma {:induction false} SelfJumpNeverEnds(s: State, instr: Instruction, mic: nat, count: nat, fuel: nat)
    requires Valid(s) && count < mic
    requires (instr.opcode == Jmp || instr.opcode == B) && instr.addr == 0
    ensures Execution([instr], mic, Config(0, count, s), fuel) == (OutOfFuel, s)
    decreases fuel
  {
    if fuel > 0 {
      SelfJumpNeverEnds(s, instr, mic, count, fuel - 1);
    }
  }

  /** HALT as the first instruction leaves the fresh machine as it is: zero
      registers and an empty stack. */
  lemma HaltFirst(program: seq<Instruction>, mic: nat, fuel: nat, numRegisters: nat, memorySize: nat)
    requires memorySize >= 1 && |program| > 0 && program[0].opcode == Halt && mic >= 1
    ensures var s := Initialize(numRegisters, memorySize);
      ExecuteFrom(s, program, mic, fuel) == (Ended, s) &&
      Snapshot(s) == ProcessingUnitState(seq(numRegisters, _ => 0), [])
  {
  }

  /** Every instruction of the program pushes a valid register. */
  predicate AllPushes(program: seq<Instruction>, numRegisters: nat) {
    forall i | 0 <= i < |program| :: program[i].opcode == Push && program[i].reg1 < numRegisters
  }

  /** A run of k pushes with the stack pointer at sp succeeds when k <= sp
      and otherwise faults with StackOverflow once the pointer reaches 0. */
  lemma {:induction false} PushRun(program: seq<Instruction>, mic: nat, c: Config, fuel: nat)
    requires Valid(c.state) && c.count <= mic && c.ip <= |program|
    requires AllPushes(program, |c.state.registers|)
    requires mic - c.count >= |program| - c.ip
    ensures var k, r := |program| - c.ip, Execution(program, mic, c, fuel);
      if k <= c.state.sp then r.0 == Ended && r.1.sp == c.state.sp - k
      else r.0 == Faulted(StackOverflow) && r.1.sp == 0
    decreases |program| - c.ip
  {
    if c.ip < |program| && c.state.sp > 0 {
      var t := Semantics.Push(c.state, program[c.ip].reg1).value;
      PushRun(program, mic, Config(c.ip + 1, c.count + 1, t), fuel);
    }
  }

  /** On a fresh machine with m memory cells, m - 1 pushes succeed and fill
      every cell but 0, and an m-th push faults with StackOverflow. */
  lemma PushesFromEmpty(program: seq<Instruction>, mic: nat, fuel: nat, numRegisters: nat, memorySize: nat)
    requires memorySize >= 1 && AllPushes(program, numRegisters) && mic >= |program|
    ensures var s := Initialize(numRegisters, memorySize);
      var r := ExecuteFrom(s, program, mic, fuel);
      (|program| == memorySize - 1 ==> r.0 == Ended && |Stack(r.1)| == memorySize - 1) &&
      (|program| == memorySize ==> r.0 == Faulted(StackOverflow))
  {
    PushRun(program, mic, Config(0, 0, Initialize(numRegisters, memorySize)), fuel);
  }

  /** LI a into r1, LI b into r2, then ADD/SUB/MUL r1 r2 r3 leaves the exact
      result in r3, or faults with Overflow when it does not fit `i32`. */
  lemma LoadsThenArithmetic(s: State, op: Opcode, r1: nat, r2: nat, r3: nat, a: i32, b: i32, mic: nat, fuel: nat)
    requires Valid(s) && r1 < |s.registers| && r2 < |s.registers| && r3 < |s.registers| && r1 != r2
    requires op == Add || op == Sub || op == Mul
    requires mic >= 3
    ensures var program := [Instruction(LoadImmediate, r1, 0, 0, 0, a),
                            Instruction(LoadImmediate, r2, 0, 0, 0, b),
                            Instruction(op, r1, r2, r3, 0, 0)];
      var exact := if op == Add then a + b else if op == Sub then a - b else a * b;
      var r := ExecuteFrom(s, program, mic, fuel);
      if InRange(exact) then r.0 == Ended && r.1.registers[r3] == exact
      else r.0 == Faulted(Overflow)
  {
    var program := [Instruction(LoadImmediate, r1, 0, 0, 0, a),
                    Instruction(LoadImmediate, r2, 0, 0, 0, b),
                    Instruction(op, r1, r2, r3, 0, 0)];
    var s1 := s.(registers := s.registers[r1 := a]);
    var s2 := s1.(registers := s1.registers[r2 := b]);
    assert Step(s, program[0]) == Ok(Transition(Advance, s1));
    assert Step(s1, program[1]) == Ok(Transition(Advance, s2));
    assert s2.registers[r1] == a && s2.registers[r2] == b;
    var bop := if op == Add then AddOp else if op == Sub then SubOp else MulOp;
    assert Step(s2, program[2]) == Continue(Binary(s2, bop, r1, r2, r3));
    assert Execution(program, mic, Config(0, 0, s), fuel) == Execution(program, mic, Config(1, 1, s1), fuel);
    assert Execution(program, mic, Config(1, 1, s1), fuel) == Execution(program, mic, Config(2, 2, s2), fuel);
    var exact := if op == Add then a + b else if op == Sub then a - b else a * b;
    assert EvalBinary(bop, a, b) == Checked(exact);
    if InRange(exact) {
      var s3 := s2.(registers := s2.registers[r3 := exact]);
      assert Step(s2, program[2]) == Ok(Transition(Advance, s3));
      assert Execution(program, mic, Config(2, 2, s2), fuel) == Execution(program, mic, Config(3, 3, s3), fuel);
    }
  }
}
