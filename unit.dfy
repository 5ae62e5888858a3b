/** The processing unit: a register bank and a memory of fixed length,
    allocated once, and a stack pointer into memory. Each method checks its
    operands before it writes anything and reports a fault instead of ending
    the process. Every method is specified by the pure operation of the same
    name in Semantics. */
module Unit {
  import opened Int32
  import opened Semantics

  class ProcessingUnit {
    const registers: array<i32>
    const memory: array<i32>
    var stackPointer: nat

    ghost predicate Valid()
      reads this
    {
      registers != memory && stackPointer < memory.Length
    }

    /** The machine state the arrays and the stack pointer represent. */
    ghost function State(): (s: Semantics.State)
      reads this, registers, memory
      ensures |s.registers| == registers.Length && |s.memory| == memory.Length
    {
      Semantics.State(registers[..], memory[..], stackPointer)
    }

    /** The method reported o and left the unit in the state that the pure
        outcome r describes; on a fault, the state `before` the call. */
    ghost predicate Reflects(r: Outcome<Semantics.State>, o: Outcome<()>, before: Semantics.State)
      reads this, registers, memory
    {
      if r.Ok? then o.Ok? && State() == r.value
      else o == Fail(r.fault) && State() == before
    }

    constructor Initialize(numRegisters: nat, memorySize: nat)
      requires memorySize >= 1
      ensures Valid() && fresh(registers) && fresh(memory)
      ensures State() == Semantics.Initialize(numRegisters, memorySize)
    {
      registers := new i32[numRegisters](_ => 0);
      memory := new i32[memorySize](_ => 0);
      stackPointer := memorySize - 1;
      new;
      assert registers[..] == seq(numRegisters, _ => 0);
      assert memory[..] == seq(memorySize, _ => 0);
    }

    method CheckRegisterBounds(reg: nat) returns (o: Outcome<()>)
      ensures o.Ok? <==> reg < registers.Length
      ensures o.Fail? ==> o.fault == OutOfBounds
    {
      if reg >= registers.Length {
        return Fail(OutOfBounds);
      }
      return Ok(());
    }

    /** reg3 := reg1 op reg2, the shared body of the three-register opcodes. */
    method ApplyBinary(op: BinaryOp, reg1: nat, reg2: nat, reg3: nat) returns (o: Outcome<()>)
      requires Valid()
      modifies registers
      ensures Valid()
      ensures Reflects(Binary(old(State()), op, reg1, reg2, reg3), o, old(State()))
    {
      o := CheckRegisterBounds(reg1);
      if o.Fail? { return; }
      o := CheckRegisterBounds(reg2);
      if o.Fail? { return; }
      o := CheckRegisterBounds(reg3);
      if o.Fail? { return; }
      BinaryValue(State(), op, reg1, reg2, reg3);
      var v := EvalBinary(op, registers[reg1], registers[reg2]);
      if v.Fail? {
        return Fail(v.fault);
      }
      registers[reg3] := v.value;
    }

    /** dst := op src, the shared body of the two-register opcodes. */
    method ApplyUnary(op: UnaryOp, src: nat, dst: nat) returns (o: Outcome<()>)
      requires Valid()
      modifies registers
      ensures Valid()
      ensures Reflects(Unary(old(State()), op, src, dst), o, old(State()))
    {
      o := CheckRegisterBounds(src);
      if o.Fail? { return; }
      o := CheckRegisterBounds(dst);
      if o.Fail? { return; }
      UnaryValue(State(), op, src, dst);
      var v := EvalUnary(op, registers[src]);
      if v.Fail? {
        return Fail(v.fault);
      }
      registers[dst] := v.value;
    }

    method Add(reg1: nat, reg2: nat, reg3: nat) returns (o: Outcome<()>)
      requires Valid()
      modifies registers
      ensures Valid()
      ensures Reflects(Binary(old(State()), AddOp, reg1, reg2, reg3), o, old(State()))
    {
      o := ApplyBinary(AddOp, reg1, reg2, reg3);
    }

    method Subtract(reg1: nat, reg2: nat, reg3: nat) returns (o: Outcome<()>)
      requires Valid()
      modifies registers
      ensures Valid()
      ensures Reflects(Binary(old(State()), SubOp, reg1, reg2, reg3), o, old(State()))
    {
      o := ApplyBinary(SubOp, reg1, reg2, reg3);
    }

    method Multiply(reg1: nat, reg2: nat, reg3: nat) returns (o: Outcome<()>)
      requires Valid()
      modifies registers
      ensures Valid()
      ensures Reflects(Binary(old(State()), MulOp, reg1, reg2, reg3), o, old(State()))
    {
      o := ApplyBinary(MulOp, reg1, reg2, reg3);
    }

    method Divide(reg1: nat, reg2: nat, reg3: nat) returns (o: Outcome<()>)
      requires Valid()
      modifies registers
      ensures Valid()
      ensures Reflects(Binary(old(State()), DivOp, reg1, reg2, reg3), o, old(State()))
    {
      o := ApplyBinary(DivOp, reg1, reg2, reg3);
    }

    method ModOp(reg1: nat, reg2: nat, reg3: nat) returns (o: Outcome<()>)
      requires Valid()
      modifies registers
      ensures Valid()
      ensures Reflects(Binary(old(State()), Semantics.ModOp, reg1, reg2, reg3), o, old(State()))
    {
      o := ApplyBinary(Semantics.ModOp, reg1, reg2, reg3);
    }

    method Neg(reg1: nat, reg2: nat) returns (o: Outcome<()>)
      requires Valid()
      modifies registers
      ensures Valid()
      ensures Reflects(Unary(old(State()), NegOp, reg1, reg2), o, old(State()))
    {
      o := ApplyUnary(NegOp, reg1, reg2);
    }

    method Absolute(reg1: nat, reg2: nat) returns (o: Outcome<()>)
      requires Valid()
      modifies registers
      ensures Valid()
      ensures Reflects(Unary(old(State()), AbsOp, reg1, reg2), o, old(State()))
    {
      o := ApplyUnary(AbsOp, reg1, reg2);
    }

    method Store(reg: nat, addr: nat) returns (o: Outcome<()>)
      requires Valid()
      modifies memory
      ensures Valid()
      ensures Reflects(Semantics.Store(old(State()), reg, addr), o, old(State()))
    {
      o := CheckRegisterBounds(reg);
      if o.Fail? { return; }
      if addr < memory.Length {
        memory[addr] := registers[reg];
      } else {
        o := Fail(OutOfBounds);
      }
    }

    method Load(addr: nat, reg: nat) returns (o: Outcome<()>)
      requires Valid()
      modifies registers
      ensures Valid()
      ensures Reflects(Semantics.Load(old(State()), addr, reg), o, old(State()))
    {
      o := CheckRegisterBounds(reg);
      if o.Fail? { return; }
      if addr < memory.Length {
        registers[reg] := memory[addr];
      } else {
        o := Fail(OutOfBounds);
      }
    }

    method Push(reg: nat) returns (o: Outcome<()>)
      requires Valid()
      modifies this`stackPointer, memory
      ensures Valid()
      ensures Reflects(Semantics.Push(old(State()), reg), o, old(State()))
    {
      o := CheckRegisterBounds(reg);
      if o.Fail? { return; }
      if stackPointer > 0 {
        memory[stackPointer] := registers[reg];
        stackPointer := stackPointer - 1;
      } else {
        o := Fail(StackOverflow);
      }
    }

    method Pop(reg: nat) returns (o: Outcome<()>)
      requires Valid()
      modifies this`stackPointer, registers
      ensures Valid()
      ensures Reflects(Semantics.Pop(old(State()), reg), o, old(State()))
    {
      o := CheckRegisterBounds(reg);
      if o.Fail? { return; }
      if stackPointer < memory.Length - 1 {
        stackPointer := stackPointer + 1;
        registers[reg] := memory[stackPointer];
      } else {
        o := Fail(StackUnderflow);
      }
    }

    method Mov(reg1: nat, reg2: nat) returns (o: Outcome<()>)
      requires Valid()
      modifies registers
      ensures Valid()
      ensures Reflects(Semantics.Mov(old(State()), reg1, reg2), o, old(State()))
    {
      o := CheckRegisterBounds(reg1);
      if o.Fail? { return; }
      o := CheckRegisterBounds(reg2);
      if o.Fail? { return; }
      registers[reg1] := registers[reg2];
    }

    /** LI, which the loop performs on the register bank directly. */
    method LoadImmediate(reg: nat, immediate: i32) returns (o: Outcome<()>)
      requires Valid()
      modifies registers
      ensures Valid()
      ensures Reflects(Semantics.LoadImmediate(old(State()), reg, immediate), o, old(State()))
    {
      o := CheckRegisterBounds(reg);
      if o.Fail? { return; }
      registers[reg] := immediate;
    }
  }
}
