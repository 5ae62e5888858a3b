/** The state store and the instruction set semantics as pure functions on
    machine states. Every operation checks its register indices, address
    and stack pointer before anything changes, so a fault carries no new
    state: the machine is left as it was. */
module Semantics {
  import opened Int32
  import opened Isa

  /** The conditions under which the machine stops with an error. */
  datatype Fault =
    | OutOfBounds     // register index or memory address >= capacity
    | DivByZero       // DIV or MOD with a zero divisor
    | StackOverflow   // PUSH with the stack pointer at 0
    | StackUnderflow  // POP with the stack empty
    | BudgetExceeded  // instruction budget used up
    | Overflow        // an `i32` result out of range, or a shift count outside 0..31

  datatype Outcome<T> = Ok(value: T) | Fail(fault: Fault)

  /** Register bank, memory, and the stack pointer into memory. */
  datatype State = State(registers: seq<i32>, memory: seq<i32>, sp: nat)

  /** The stack pointer is a memory index, so memory is never empty. */
  predicate Valid(s: State) {
    s.sp < |s.memory|
  }

  /** Neither the register bank nor memory changes length. */
  predicate SameShape(s: State, t: State) {
    |s.registers| == |t.registers| && |s.memory| == |t.memory|
  }

  /** The live stack: memory above the stack pointer, most recent push first. */
  function Stack(s: State): (live: seq<i32>)
    requires Valid(s)
    ensures |live| == |s.memory| - 1 - s.sp
  {
    s.memory[s.sp + 1..]
  }

  /** A fresh machine: all registers and cells zero, the stack empty. */
  function Initialize(numRegisters: nat, memorySize: nat): (s: State)
    requires memorySize >= 1
    ensures Valid(s)
    ensures |s.registers| == numRegisters && |s.memory| == memorySize
    ensures forall i | 0 <= i < numRegisters :: s.registers[i] == 0
    ensures forall a | 0 <= a < memorySize :: s.memory[a] == 0
    ensures s.sp == memorySize - 1 && Stack(s) == []
  {
    State(seq(numRegisters, _ => 0), seq(memorySize, _ => 0), memorySize - 1)
  }

  // ---------------------------------------------------------------------
  // Values
  // ---------------------------------------------------------------------

  datatype BinaryOp = AddOp | SubOp | MulOp | DivOp | ModOp | AndOp | OrOp | XorOp | ShlOp | ShrOp

  datatype UnaryOp = NegOp | AbsOp | NotOp | IncOp | DecOp

  /** An exact result that must fit in `i32`. */
  function Checked(v: int): Outcome<i32> {
    if InRange(v) then Ok(v) else Fail(Overflow)
  }

  /** The value a binary opcode computes from its two register operands. */
  function EvalBinary(op: BinaryOp, a: i32, b: i32): (r: Outcome<i32>)
    ensures r.Fail? ==> r.fault == DivByZero || r.fault == Overflow
    ensures r == Fail(DivByZero) <==> (op == DivOp || op == ModOp) && b == 0
    ensures op == AndOp || op == OrOp || op == XorOp ==> r.Ok?
    ensures op == DivOp && b != 0 ==> (r.Ok? <==> !(a == MIN && b == -1))
  {
    match op
    case AddOp => Checked(a + b)
    case SubOp => Checked(a - b)
    case MulOp => Checked(a * b)
    case DivOp =>
      if b == 0 then Fail(DivByZero)
      else
        QuotInRange(a, b);
        Checked(Quot(a, b))
    case ModOp =>
      if b == 0 then Fail(DivByZero)
      else if a == MIN && b == -1 then Fail(Overflow)
      else Ok(Rem(a, b))
    case AndOp => Ok(AndBits(a, b))
    case OrOp => Ok(OrBits(a, b))
    case XorOp => Ok(XorBits(a, b))
    case ShlOp => if 0 <= b < 32 then Ok(ShiftLeft(a, b)) else Fail(Overflow)
    case ShrOp => if 0 <= b < 32 then Ok(ShiftRight(a, b)) else Fail(Overflow)
  }

  /** The value a unary opcode computes from its source register. */
  function EvalUnary(op: UnaryOp, a: i32): (r: Outcome<i32>)
    ensures r.Fail? ==> r.fault == Overflow
    ensures op == NotOp ==> r.Ok?
  {
    match op
    case NegOp => Checked(-(a as int))
    case AbsOp => Checked(Int32.Abs(a))
    case NotOp => Ok(NotBits(a))
    case IncOp => Checked(a + 1)
    case DecOp => Checked(a - 1)
  }

  /** DIV and MOD with a nonzero divisor (other than MIN / -1) give Rust's
      truncated quotient and remainder. */
  lemma DivModIdentity(a: i32, b: i32)
    requires b != 0 && !(a == MIN && b == -1)
    ensures EvalBinary(DivOp, a, b).Ok? && EvalBinary(ModOp, a, b).Ok?
    ensures var q, r := EvalBinary(DivOp, a, b).value, EvalBinary(ModOp, a, b).value;
      a == b * q + r && Int32.Abs(r) < Int32.Abs(b) && (a >= 0 ==> r >= 0) && (a <= 0 ==> r <= 0)
  {
    QuotRem(a, b);
  }

  // ---------------------------------------------------------------------
  // Operations of the state store
  // ---------------------------------------------------------------------

  /** reg3 := reg1 op reg2 (ADD, SUB, MUL, DIV, MOD, AND, OR, XOR, SHL, SHR,
      CMP, TEST). */
  function Binary(s: State, op: BinaryOp, reg1: nat, reg2: nat, reg3: nat): Outcome<State> {
    var n := |s.registers|;
    if reg1 >= n || reg2 >= n || reg3 >= n then Fail(OutOfBounds)
    else
      match EvalBinary(op, s.registers[reg1], s.registers[reg2])
      case Fail(f) => Fail(f)
      case Ok(v) => Ok(s.(registers := s.registers[reg3 := v]))
  }

  /** dst := op src (NEG, ABS, NOT; INC and DEC with dst == src). */
  function Unary(s: State, op: UnaryOp, src: nat, dst: nat): Outcome<State> {
    var n := |s.registers|;
    if src >= n || dst >= n then Fail(OutOfBounds)
    else
      match EvalUnary(op, s.registers[src])
      case Fail(f) => Fail(f)
      case Ok(v) => Ok(s.(registers := s.registers[dst := v]))
  }

  /** With its registers in range, Binary writes the value EvalBinary gives
      or reports its fault. */
  lemma BinaryValue(s: State, op: BinaryOp, r1: nat, r2: nat, r3: nat)
    requires r1 < |s.registers| && r2 < |s.registers| && r3 < |s.registers|
    ensures var v := EvalBinary(op, s.registers[r1], s.registers[r2]);
      (v.Ok? ==> Binary(s, op, r1, r2, r3) == Ok(s.(registers := s.registers[r3 := v.value]))) &&
      (v.Fail? ==> Binary(s, op, r1, r2, r3) == Fail(v.fault))
  {
  }

  /** With its registers in range, Unary writes the value EvalUnary gives
      or reports Overflow. */
  lemma UnaryValue(s: State, op: UnaryOp, src: nat, dst: nat)
    requires src < |s.registers| && dst < |s.registers|
    ensures var v := EvalUnary(op, s.registers[src]);
      (v.Ok? ==> Unary(s, op, src, dst) == Ok(s.(registers := s.registers[dst := v.value]))) &&
      (v.Fail? ==> Unary(s, op, src, dst) == Fail(Overflow))
  {
  }

  /** LI: reg := immediate. */
  function LoadImmediate(s: State, reg: nat, immediate: i32): Outcome<State> {
    if reg >= |s.registers| then Fail(OutOfBounds)
    else Ok(s.(registers := s.registers[reg := immediate]))
  }

  /** MOV: dst := src (reg1 is the destination). */
  function Mov(s: State, dst: nat, src: nat): Outcome<State> {
    var n := |s.registers|;
    if dst >= n || src >= n then Fail(OutOfBounds)
    else Ok(s.(registers := s.registers[dst := s.registers[src]]))
  }

  /** STORE: memory[addr] := reg; the register is checked first. */
  function Store(s: State, reg: nat, addr: nat): Outcome<State> {
    if reg >= |s.registers| then Fail(OutOfBounds)
    else if addr >= |s.memory| then Fail(OutOfBounds)
    else Ok(s.(memory := s.memory[addr := s.registers[reg]]))
  }

  /** LOAD: reg := memory[addr]; the register is checked first. */
  function Load(s: State, addr: nat, reg: nat): Outcome<State> {
    if reg >= |s.registers| then Fail(OutOfBounds)
    else if addr >= |s.memory| then Fail(OutOfBounds)
    else Ok(s.(registers := s.registers[reg := s.memory[addr]]))
  }

  /** PUSH: writes the register at the stack pointer, then moves the pointer
      down. Cell 0 is never written. */
  function Push(s: State, reg: nat): (r: Outcome<State>)
    requires Valid(s)
    ensures reg >= |s.registers| ==> r == Fail(OutOfBounds)
    ensures reg < |s.registers| ==> (r.Ok? <==> s.sp > 0) && (r.Fail? ==> r.fault == StackOverflow)
    ensures r.Ok? ==> var t := r.value;
      Valid(t) && SameShape(s, t) && t.registers == s.registers && t.sp == s.sp - 1 &&
      Stack(t) == [s.registers[reg]] + Stack(s) && t.memory[..t.sp + 1] == s.memory[..t.sp + 1]
  {
    if reg >= |s.registers| then Fail(OutOfBounds)
    else if s.sp > 0 then
      var t := State(s.registers, s.memory[s.sp := s.registers[reg]], s.sp - 1);
      assert Stack(t) == [s.registers[reg]] + Stack(s);
      Ok(t)
    else Fail(StackOverflow)
  }

  /** POP: moves the stack pointer up, then reads that cell into the register. */
  function Pop(s: State, reg: nat): (r: Outcome<State>)
    requires Valid(s)
    ensures reg >= |s.registers| ==> r == Fail(OutOfBounds)
    ensures reg < |s.registers| ==> (r.Ok? <==> Stack(s) != []) && (r.Fail? ==> r.fault == StackUnderflow)
    ensures r.Ok? ==> var t := r.value;
      Valid(t) && SameShape(s, t) && t.memory == s.memory && t.sp == s.sp + 1 &&
      Stack(s) == [Stack(s)[0]] + Stack(t) && t.registers == s.registers[reg := Stack(s)[0]]
  {
    if reg >= |s.registers| then Fail(OutOfBounds)
    else if s.sp < |s.memory| - 1 then
      Ok(State(s.registers[reg := s.memory[s.sp + 1]], s.memory, s.sp + 1))
    else Fail(StackUnderflow)
  }

  /** A PUSH of r followed by a POP into q moves r's value into q and leaves
      the stack as it was. */
  lemma PushPopRoundTrip(s: State, r: nat, q: nat)
    requires Valid(s) && Push(s, r).Ok? && q < |s.registers|
    ensures var t := Push(s, r).value;
      Pop(t, q).Ok? &&
      var u := Pop(t, q).value;
      u.registers == s.registers[q := s.registers[r]] && u.sp == s.sp && Stack(u) == Stack(s)
  {
    var t := Push(s, r).value;
    assert Stack(t)[0] == s.registers[r];
  }

  // ---------------------------------------------------------------------
  // One instruction
  // ---------------------------------------------------------------------

  /** What the fetch-execute loop does after an instruction: advance to the
      next one, jump without counting, jump and then advance as usual, or
      stop. */
  datatype Control = Advance | Jump(target: nat) | JumpThenAdvance(target: nat) | Stop

  datatype Transition = Transition(control: Control, state: State)

  function Continue(r: Outcome<State>): Outcome<Transition> {
    match r
    case Ok(t) => Ok(Transition(Advance, t))
    case Fail(f) => Fail(f)
  }

  /** The opcodes that write reg1 op reg2 into reg3. */
  predicate IsBinary(op: Opcode) {
    op.Add? || op.Sub? || op.Mul? || op.Div? || op.Mod? || op.And? || op.Or? || op.Xor? ||
    op.Shl? || op.Shr? || op.Cmp? || op.Test?
  }

  /** The operation a three-register opcode applies; CMP subtracts and TEST
      masks, like SUB and AND. */
  function BinaryOf(op: Opcode): BinaryOp
    requires IsBinary(op)
  {
    match op
    case Add => AddOp
    case Sub | Cmp => SubOp
    case Mul => MulOp
    case Div => DivOp
    case Mod => ModOp
    case And | Test => AndOp
    case Or => OrOp
    case Xor => XorOp
    case Shl => ShlOp
    case Shr => ShrOp
  }

  /** The opcodes that write op applied to one register. */
  predicate IsUnary(op: Opcode) {
    op.Neg? || op.Abs? || op.Not? || op.Inc? || op.Dec?
  }

  function UnaryOf(op: Opcode): UnaryOp
    requires IsUnary(op)
  {
    match op
    case Neg => NegOp
    case Abs => AbsOp
    case Not => NotOp
    case Inc => IncOp
    case Dec => DecOp
  }

  /** NEG, ABS and NOT write reg2; INC and DEC update reg1 in place. */
  function UnaryTarget(instr: Instruction): nat
    requires IsUnary(instr.opcode)
  {
    if instr.opcode == Inc || instr.opcode == Dec then instr.reg1 else instr.reg2
  }

  /** STORE, LOAD, MOV and LI move one value. */
  predicate IsMove(op: Opcode) {
    op.Store? || op.Load? || op.Mov? || op.LoadImmediate?
  }

  /** PUSH and POP move the stack pointer. */
  predicate IsStack(op: Opcode) {
    op.Push? || op.Pop?
  }

  /** The jumps, NOP and HALT direct the loop and change no state. */
  predicate IsControl(op: Opcode) {
    op.Jmp? || op.B? || op.Jz? || op.Bz? || op.Jnz? || op.Bnz? || op.Je? || op.Jne? || op.Nop? || op.Halt?
  }

  /** The value-moving opcodes on their operand slots. */
  function Move(s: State, instr: Instruction): Outcome<State>
    requires IsMove(instr.opcode)
  {
    match instr.opcode
    case Store => Store(s, instr.reg1, instr.addr)
    case Load => Load(s, instr.addr, instr.reg1)
    case LoadImmediate => LoadImmediate(s, instr.reg1, instr.immediate)
    case Mov => Mov(s, instr.reg1, instr.reg2)
  }

  /** PUSH and POP on reg1. */
  function StackOp(s: State, instr: Instruction): Outcome<State>
    requires Valid(s) && IsStack(instr.opcode)
  {
    if instr.opcode.Push? then Push(s, instr.reg1) else Pop(s, instr.reg1)
  }

  /** The jumps, NOP and HALT: check the registers a condition reads, then
      decide where the loop goes next. */
  function Branch(s: State, instr: Instruction): (r: Outcome<Transition>)
    requires IsControl(instr.opcode)
    ensures r.Ok? ==> r.value.state == s
    ensures r.Fail? ==> r.fault == OutOfBounds
  {
    var n, r1, r2 := |s.registers|, instr.reg1, instr.reg2;
    match instr.opcode
    case Jmp | B => Ok(Transition(Jump(instr.addr), s))
    case Jz | Bz =>
      if r1 >= n then Fail(OutOfBounds)
      else if s.registers[r1] == 0 then Ok(Transition(Jump(instr.addr), s))
      else Ok(Transition(Advance, s))
    case Jnz | Bnz =>
      if r1 >= n then Fail(OutOfBounds)
      else if s.registers[r1] != 0 then Ok(Transition(Jump(instr.addr), s))
      else Ok(Transition(Advance, s))
    case Je =>
      if r1 >= n || r2 >= n then Fail(OutOfBounds)
      else if s.registers[r1] == s.registers[r2] then Ok(Transition(JumpThenAdvance(instr.addr), s))
      else Ok(Transition(Advance, s))
    case Jne =>
      if r1 >= n || r2 >= n then Fail(OutOfBounds)
      else if s.registers[r1] != s.registers[r2] then Ok(Transition(JumpThenAdvance(instr.addr), s))
      else Ok(Transition(Advance, s))
    case Nop => Ok(Transition(Advance, s))
    case Halt => Ok(Transition(Stop, s))
  }

  /** The effect of one decoded instruction on the machine, family by
      family. */
  function Step(s: State, instr: Instruction): (r: Outcome<Transition>)
    requires Valid(s)
    ensures r.Ok? ==> Valid(r.value.state) && SameShape(s, r.value.state)
    ensures r.Fail? ==> r.fault != BudgetExceeded
  {
    var op, r1, r2, r3 := instr.opcode, instr.reg1, instr.reg2, instr.reg3;
    if IsBinary(op) then Continue(Binary(s, BinaryOf(op), r1, r2, r3))
    else if IsUnary(op) then Continue(Unary(s, UnaryOf(op), r1, UnaryTarget(instr)))
    else if IsMove(op) then Continue(Move(s, instr))
    else if IsStack(op) then Continue(StackOp(s, instr))
    else Branch(s, instr)
  }
}

module SemanticsFacts {
  import opened Int32
  import opened Isa
  import opened Semantics

  /** The register indices an opcode bounds-checks before it acts. */
  function Operands(instr: Instruction): set<nat> {
    match instr.opcode
    case Add | Sub | Mul | Div | Mod | And | Or | Xor | Shl | Shr | Cmp | Test =>
      {instr.reg1, instr.reg2, instr.reg3}
    case Neg | Abs | Not | Mov | Je | Jne => {instr.reg1, instr.reg2}
    case Store | Load | LoadImmediate | Push | Pop | Jz | Jnz | Bz | Bnz | Inc | Dec => {instr.reg1}
    case Nop | Jmp | B | Halt => {}
  }

  /** The registers an opcode may write. */
  function Destinations(instr: Instruction): set<nat> {
    match instr.opcode
    case Add | Sub | Mul | Div | Mod | And | Or | Xor | Shl | Shr | Cmp | Test => {instr.reg3}
    case Neg | Abs | Not => {instr.reg2}
    case Load | LoadImmediate | Pop | Mov | Inc | Dec => {instr.reg1}
    case _ => {}
  }

  /** The branch condition of a jump opcode; false for every other opcode. */
  predicate BranchTaken(s: State, instr: Instruction) {
    var n, r1, r2 := |s.registers|, instr.reg1, instr.reg2;
    match instr.opcode
    case Jmp | B => true
    case Jz | Bz => r1 < n && s.registers[r1] == 0
    case Jnz | Bnz => r1 < n && s.registers[r1] != 0
    case Je => r1 < n && r2 < n && s.registers[r1] == s.registers[r2]
    case Jne => r1 < n && r2 < n && s.registers[r1] != s.registers[r2]
    case _ => false
  }

  /** A three-register opcode checks all three registers, then either writes
      reg3 := reg1 op reg2 and nothing else, or reports the operation's
      fault. */
  lemma BinaryStep(s: State, instr: Instruction)
    requires Valid(s) && IsBinary(instr.opcode)
    ensures var n, r1, r2, r3 := |s.registers|, instr.reg1, instr.reg2, instr.reg3;
      (r1 >= n || r2 >= n || r3 >= n ==> Step(s, instr) == Fail(OutOfBounds)) &&
      (r1 < n && r2 < n && r3 < n ==>
        var v := EvalBinary(BinaryOf(instr.opcode), s.registers[r1], s.registers[r2]);
        (v.Ok? ==> Step(s, instr) == Ok(Transition(Advance, s.(registers := s.registers[r3 := v.value])))) &&
        (v.Fail? ==> Step(s, instr) == Fail(v.fault)))
  {
    StepOfBinary(s, instr);
    if instr.reg1 < |s.registers| && instr.reg2 < |s.registers| && instr.reg3 < |s.registers| {
      BinaryValue(s, BinaryOf(instr.opcode), instr.reg1, instr.reg2, instr.reg3);
    }
  }

  lemma StepOfBinary(s: State, instr: Instruction)
    requires Valid(s) && IsBinary(instr.opcode)
    ensures Step(s, instr) == Continue(Binary(s, BinaryOf(instr.opcode), instr.reg1, instr.reg2, instr.reg3))
  {
  }

  /** A one-register opcode checks reg1 and reg2, then either writes its
      target := op reg1 and nothing else, or reports Overflow. */
  lemma UnaryStep(s: State, instr: Instruction)
    requires Valid(s) && IsUnary(instr.opcode)
    ensures var n, r1, r2 := |s.registers|, instr.reg1, instr.reg2;
      var checked := if instr.opcode == Inc || instr.opcode == Dec then r1 < n else r1 < n && r2 < n;
      (!checked ==> Step(s, instr) == Fail(OutOfBounds)) &&
      (checked ==>
        var v := EvalUnary(UnaryOf(instr.opcode), s.registers[r1]);
        (v.Ok? ==>
          Step(s, instr) == Ok(Transition(Advance, s.(registers := s.registers[UnaryTarget(instr) := v.value])))) &&
        (v.Fail? ==> Step(s, instr) == Fail(Overflow)))
  {
    var n, r1 := |s.registers|, instr.reg1;
    assert Step(s, instr) == Continue(Unary(s, UnaryOf(instr.opcode), r1, UnaryTarget(instr)));
    if r1 < n && UnaryTarget(instr) < n {
      UnaryValue(s, UnaryOf(instr.opcode), r1, UnaryTarget(instr));
    }
  }

  /** STORE, LOAD, MOV and LI succeed exactly when their register (and
      address) are in range, and then change one cell or one register to
      the moved value. */
  lemma MoveStep(s: State, instr: Instruction)
    requires Valid(s) && IsMove(instr.opcode)
    ensures var n, m, r1, r2, a := |s.registers|, |s.memory|, instr.reg1, instr.reg2, instr.addr;
      var r, op := Step(s, instr), instr.opcode;
      (r.Fail? ==> r.fault == OutOfBounds) &&
      (r.Ok? ==> r.value.control == Advance) &&
      (op == Store ==>
        (r.Ok? <==> r1 < n && a < m) &&
        (r.Ok? ==> r.value.state == s.(memory := s.memory[a := s.registers[r1]]))) &&
      (op == Load ==>
        (r.Ok? <==> r1 < n && a < m) &&
        (r.Ok? ==> r.value.state == s.(registers := s.registers[r1 := s.memory[a]]))) &&
      (op == Mov ==>
        (r.Ok? <==> r1 < n && r2 < n) &&
        (r.Ok? ==> r.value.state == s.(registers := s.registers[r1 := s.registers[r2]]))) &&
      (op == LoadImmediate ==>
        (r.Ok? <==> r1 < n) &&
        (r.Ok? ==> r.value.state == s.(registers := s.registers[r1 := instr.immediate])))
  {
  }

  /** What a transition r of instr from s satisfies: an operand out of
      range faults with OutOfBounds, a success writes only within the
      frame, and a fault has its documented cause. */
  predicate WellBehaved(s: State, instr: Instruction, r: Outcome<Transition>)
    requires Valid(s)
  {
    (!OperandsInRange(s, instr) ==> r == Fail(OutOfBounds)) &&
    (r.Ok? ==> Framed(s, instr, r.value.state)) &&
    (r.Fail? ==> Explained(s, instr, r.fault))
  }

  /** t differs from s only where instr may write: its destination
      registers, the single memory cell a STORE or a PUSH writes, and the
      stack pointer for PUSH and POP. */
  predicate Framed(s: State, instr: Instruction, t: State) {
    var op := instr.opcode;
    SameShape(s, t) &&
    (forall k | 0 <= k < |s.registers| && k !in Destinations(instr) :: t.registers[k] == s.registers[k]) &&
    (op != Store && op != Push ==> t.memory == s.memory) &&
    (op == Store ==> forall a | 0 <= a < |s.memory| && a != instr.addr :: t.memory[a] == s.memory[a]) &&
    (op == Push ==> forall a | 0 <= a < |s.memory| && a != s.sp :: t.memory[a] == s.memory[a]) &&
    (op != Push && op != Pop ==> t.sp == s.sp)
  }

  /** Every register the opcode checks is in range. */
  predicate OperandsInRange(s: State, instr: Instruction) {
    forall k | k in Operands(instr) :: k < |s.registers|
  }

  /** The operands are drawn from reg1, reg2 and reg3. */
  lemma InRangeOperands(s: State, instr: Instruction)
    ensures var n := |s.registers|;
      OperandsInRange(s, instr) <==>
        (instr.reg1 in Operands(instr) ==> instr.reg1 < n) &&
        (instr.reg2 in Operands(instr) ==> instr.reg2 < n) &&
        (instr.reg3 in Operands(instr) ==> instr.reg3 < n)
  {
    assert forall k | k in Operands(instr) :: k == instr.reg1 || k == instr.reg2 || k == instr.reg3;
  }

  /** The fault f has exactly the cause the source checks for. */
  predicate Explained(s: State, instr: Instruction, f: Fault)
    requires Valid(s)
  {
    var op, n := instr.opcode, |s.registers|;
    (f == OutOfBounds <==>
      !OperandsInRange(s, instr) ||
      ((op == Store || op == Load) && instr.addr >= |s.memory|)) &&
    (f == DivByZero ==> (op == Div || op == Mod) && instr.reg2 < n && s.registers[instr.reg2] == 0) &&
    (f == StackOverflow ==> op == Push && s.sp == 0) &&
    (f == StackUnderflow ==> op == Pop && Stack(s) == []) &&
    (f == Overflow ==> op in {Add, Sub, Mul, Div, Mod, Shl, Shr, Cmp, Neg, Abs, Inc, Dec})
  }

  /** The registers a three-register opcode reads and writes, and which of
      them can fault in which way. */
  lemma BinaryShape(instr: Instruction)
    requires IsBinary(instr.opcode)
    ensures var op, bop := instr.opcode, BinaryOf(instr.opcode);
      Operands(instr) == {instr.reg1, instr.reg2, instr.reg3} && Destinations(instr) == {instr.reg3} &&
      ((bop == DivOp || bop == ModOp) <==> (op == Div || op == Mod)) &&
      (bop != AndOp && bop != OrOp && bop != XorOp ==> op in {Add, Sub, Mul, Div, Mod, Shl, Shr, Cmp})
  {
  }

  lemma BinaryBehaves(s: State, instr: Instruction)
    requires Valid(s) && IsBinary(instr.opcode)
    ensures WellBehaved(s, instr, Continue(Binary(s, BinaryOf(instr.opcode), instr.reg1, instr.reg2, instr.reg3)))
  {
    BinaryShape(instr);
    InRangeOperands(s, instr);
    var n, r1, r2, r3 := |s.registers|, instr.reg1, instr.reg2, instr.reg3;
    if r1 < n && r2 < n && r3 < n {
      BinaryValue(s, BinaryOf(instr.opcode), r1, r2, r3);
    }
  }

  /** The registers a one-register opcode reads and writes. */
  lemma UnaryShape(instr: Instruction)
    requires IsUnary(instr.opcode)
    ensures var op := instr.opcode;
      (op == Inc || op == Dec ==> Operands(instr) == {instr.reg1}) &&
      (op != Inc && op != Dec ==> Operands(instr) == {instr.reg1, instr.reg2}) &&
      Destinations(instr) == {UnaryTarget(instr)} &&
      (UnaryOf(op) != NotOp ==> op in {Neg, Abs, Inc, Dec})
  {
  }

  lemma UnaryBehaves(s: State, instr: Instruction)
    requires Valid(s) && IsUnary(instr.opcode)
    ensures WellBehaved(s, instr, Continue(Unary(s, UnaryOf(instr.opcode), instr.reg1, UnaryTarget(instr))))
  {
    UnaryShape(instr);
    InRangeOperands(s, instr);
    var n, r1 := |s.registers|, instr.reg1;
    if r1 < n && UnaryTarget(instr) < n {
      UnaryValue(s, UnaryOf(instr.opcode), r1, UnaryTarget(instr));
    }
  }

  lemma MoveBehaves(s: State, instr: Instruction)
    requires Valid(s) && IsMove(instr.opcode)
    ensures WellBehaved(s, instr, Continue(Move(s, instr)))
  {
    InRangeOperands(s, instr);
  }

  /** A push writes only the cell at the old stack pointer. */
  lemma PushWritesOneCell(s: State, reg: nat)
    requires Valid(s) && Semantics.Push(s, reg).Ok?
    ensures var t := Semantics.Push(s, reg).value;
      forall a | 0 <= a < |s.memory| && a != s.sp :: t.memory[a] == s.memory[a]
  {
    var t := Semantics.Push(s, reg).value;
    forall a | 0 <= a < |s.memory| && a != s.sp
      ensures t.memory[a] == s.memory[a]
    {
      if a < s.sp {
        assert t.memory[..t.sp + 1][a] == s.memory[..t.sp + 1][a];
      } else {
        assert Stack(t)[a - s.sp] == Stack(s)[a - s.sp - 1];
      }
    }
  }

  lemma StackBehaves(s: State, instr: Instruction)
    requires Valid(s) && IsStack(instr.opcode)
    ensures WellBehaved(s, instr, Continue(StackOp(s, instr)))
  {
    assert Operands(instr) == {instr.reg1};
    assert Destinations(instr) == if instr.opcode == Pop then {instr.reg1} else {};
    InRangeOperands(s, instr);
    if instr.opcode == Push && Semantics.Push(s, instr.reg1).Ok? {
      PushWritesOneCell(s, instr.reg1);
    }
  }

  lemma ControlBehaves(s: State, instr: Instruction)
    requires Valid(s) && IsControl(instr.opcode)
    ensures WellBehaved(s, instr, Branch(s, instr))
  {
    InRangeOperands(s, instr);
  }

  /** Every instruction is well behaved, by the family it belongs to. */
  lemma StepBehaves(s: State, instr: Instruction)
    requires Valid(s)
    ensures WellBehaved(s, instr, Step(s, instr))
  {
    var op := instr.opcode;
    if IsBinary(op) {
      BinaryBehaves(s, instr);
    } else if IsUnary(op) {
      UnaryBehaves(s, instr);
    } else if IsMove(op) {
      MoveBehaves(s, instr);
    } else if IsStack(op) {
      StackBehaves(s, instr);
    } else {
      ControlBehaves(s, instr);
    }
  }

  /** Any register operand out of range faults with OutOfBounds, whatever
      else the instruction would do. */
  lemma BadRegisterFaults(s: State, instr: Instruction, k: nat)
    requires Valid(s) && k in Operands(instr) && k >= |s.registers|
    ensures Step(s, instr) == Fail(OutOfBounds)
  {
    StepBehaves(s, instr);
    assert !OperandsInRange(s, instr);
  }

  /** Each fault has exactly the cause the source checks for. */
  lemma FaultCauses(s: State, instr: Instruction)
    requires Valid(s) && Step(s, instr).Fail?
    ensures Explained(s, instr, Step(s, instr).fault)
  {
    StepBehaves(s, instr);
  }

  /** DIV and MOD by a zero register fault, whatever the other operands hold. */
  lemma DivisionByZero(s: State, instr: Instruction)
    requires Valid(s) && (instr.opcode == Div || instr.opcode == Mod)
    requires instr.reg1 < |s.registers| && instr.reg2 < |s.registers| && instr.reg3 < |s.registers|
    requires s.registers[instr.reg2] == 0
    ensures Step(s, instr) == Fail(DivByZero)
  {
    BinaryStep(s, instr);
  }

  /** An instruction writes only its destination registers; only STORE and
      PUSH write memory, each a single cell; only PUSH and POP move the stack
      pointer. */
  lemma StepFrame(s: State, instr: Instruction)
    requires Valid(s) && Step(s, instr).Ok?
    ensures Framed(s, instr, Step(s, instr).value.state)
  {
    StepBehaves(s, instr);
  }

  /** How tr, the transition of instr from s, directs the loop: HALT stops,
      a taken JMP/B/JZ/JNZ/BZ/BNZ jumps without counting, a taken JE/JNE
      jumps and then advances, everything else advances; only advancing
      instructions change state. */
  predicate Directs(s: State, instr: Instruction, tr: Transition) {
    var op := instr.opcode;
    (tr.control == Stop <==> op == Halt) &&
    (tr.control.Jump? <==> IsUncountedJump(op) && BranchTaken(s, instr)) &&
    (tr.control.JumpThenAdvance? <==> IsCountedJump(op) && BranchTaken(s, instr)) &&
    (tr.control.Jump? || tr.control.JumpThenAdvance? ==> tr.control.target == instr.addr) &&
    (tr.control != Advance ==> tr.state == s)
  }

  lemma BranchDirects(s: State, instr: Instruction)
    requires Valid(s) && IsControl(instr.opcode) && Branch(s, instr).Ok?
    ensures Directs(s, instr, Branch(s, instr).value)
  {
  }

  lemma StepControl(s: State, instr: Instruction)
    requires Valid(s) && Step(s, instr).Ok?
    ensures Directs(s, instr, Step(s, instr).value)
  {
    if IsControl(instr.opcode) {
      BranchDirects(s, instr);
    }
  }
}
