/** The small general-purpose-register machine of Project 2: its instructions with their cycle costs,
    and its fetch-and-dispatch loop. */
module GprSim {

  type int32 = x: int | -0x8000_0000 <= x < 0x8000_0000
  type register = r: nat | r < 32

  const STRING_LENGTH := 256
  const NUM_STRINGS := 3

  datatype Instruction =
    | Addi(rdest: register, rsrc: register, imm: int32)
    | Subi(rdest: register, rsrc: register, imm: int32)
    | B(offset: int32)
    | Beqz(rsrc: register, offset: int32)
    | Bge(rsrc1: register, rsrc2: register, offset: int32)
    | Bne(rsrc1: register, rsrc2: register, offset: int32)
    | La(rdest: register, address: nat)
    | Lb(rdest: register, roffset: register)
    | Li(rdest: register, imm: int32)
    | Syscall
    | End

  type Registers = r: seq<int32> | |r| == 32 witness seq(32, _ => 0)
  /** A string buffer: 256 chars, of which those up to the first NUL count. */
  type Buffer = s: seq<int32> | |s| == STRING_LENGTH witness seq(STRING_LENGTH, _ => 0)
  const BLANK: Buffer := seq(STRING_LENGTH, _ => 0)
  type Strings = s: seq<Buffer> | |s| == NUM_STRINGS witness [BLANK, BLANK, BLANK]

  /** Leaving the program, the data or a string buffer is undefined in C; here it stops the machine
      with `fault` set. */
  datatype State = State(registers: Registers, pc: int, cycles: int, count: int, run: bool, fault: bool,
                         output: seq<Buffer>)

  datatype Program = Program(text: seq<Instruction>, data: seq<int32>)

  function Int32(x: int): int32 {
    var m := x % 0x1_0000_0000;
    if m < 0x8000_0000 then m else m - 0x1_0000_0000
  }

  function Cost(i: Instruction): nat {
    match i
    case Addi(_, _, _) => 6
    case Subi(_, _, _) => 6
    case B(_) => 4
    case Beqz(_, _) => 5
    case Bge(_, _, _) => 5
    case Bne(_, _, _) => 5
    case La(_, _) => 5
    case Lb(_, _) => 6
    case Li(_, _) => 3
    case Syscall => 8
    case End => 0
  }

  function Fault(s: State): State {
    s.(run := false, fault := true)
  }

  /** The effect of a handler on registers, PC and output, without the costs. */
  function Handle(p: Program, strings: Strings, s: State, i: Instruction): State {
    var R := s.registers;
    match i
    case Addi(rd, rs, imm) => s.(registers := R[rd := Int32(R[rs] + imm)])
    case Subi(rd, rs, imm) => s.(registers := R[rd := Int32(R[rs] - imm)])
    case B(offset) => s.(pc := s.pc + offset)
    case Beqz(rs, offset) => if R[rs] == 0 then s.(pc := s.pc + offset) else s
    case Bge(rs1, rs2, offset) => if R[rs1] >= R[rs2] then s.(pc := s.pc + offset) else s
    case Bne(rs1, rs2, offset) => if R[rs1] != R[rs2] then s.(pc := s.pc + offset) else s
    case La(rd, address) => if address < |p.data| then s.(registers := R[rd := p.data[address]]) else Fault(s)
    case Lb(rd, ro) =>
      if 0 <= R[ro] < STRING_LENGTH then s.(registers := R[rd := strings[0][R[ro]]]) else Fault(s)
    case Li(rd, imm) => s.(registers := R[rd := imm])
    case Syscall =>
      if R[29] == 1 then
        if 0 <= R[31] < NUM_STRINGS then s.(output := s.output + [strings[R[31]]]) else Fault(s)
      else if R[29] == 2 then s.(run := false)
      else s
    case End => s.(run := false)
  }

  /** The costs of an instruction; `end` is not counted as one. */
  function Charged(s: State, i: Instruction): State {
    s.(cycles := s.cycles + Cost(i), count := s.count + if i == End then 0 else 1)
  }

  function Execute(p: Program, strings: Strings, s: State, i: Instruction): State {
    var t := Charged(Handle(p, strings, s, i), i);
    t.(pc := t.pc + 1)
  }

  /** One turn of the loop: fetch, dispatch, count, advance. */
  function Step(p: Program, strings: Strings, s: State): State {
    if !s.run then s
    else if !(0 <= s.pc < |p.text|) then Fault(s)
    else
      Execute(p, strings, s, p.text[s.pc])
  }

  function Run(p: Program, strings: Strings, s: State, n: nat): State
    decreases n
  {
    if n == 0 then s else Run(p, strings, Step(p, strings, s), n - 1)
  }

  lemma {:induction false} RunAdd(p: Program, strings: Strings, s: State, m: nat, n: nat)
    ensures Run(p, strings, s, m + n) == Run(p, strings, Run(p, strings, s, m), n)
    decreases m
  {
    hide Step;
    if m > 0 {
      RunAdd(p, strings, Step(p, strings, s), m - 1, n);
    }
  }

  lemma {:induction false} Halted(p: Program, strings: Strings, s: State, n: nat)
    requires !s.run
    ensures Run(p, strings, s, n) == s
    decreases n
  {
    if n > 0 {
      Halted(p, strings, s, n - 1);
    }
  }

  function Initial(): State {
    State(seq(32, _ => 0), 0, 0, 0, true, false, [])
  }

  /** The simulator: global variables updated by the handlers. */
  class Simulator {
    const registers: array<int32>
    const program: Program
    const strings: Strings
    var programCounter: int
    var numCycles: int
    var instructionCount: int
    var run: bool
    var fault: bool
    var output: seq<Buffer>

    ghost predicate Valid()
      reads this
    {
      registers.Length == 32
    }

    ghost function Now(): State
      reads this, registers
      requires Valid()
    {
      State(registers[..], programCounter, numCycles, instructionCount, run, fault, output)
    }

    constructor (p: Program, s: Strings)
      ensures Valid() && fresh(registers) && program == p && strings == s && Now() == Initial()
    {
      program, strings := p, s;
      registers := new int32[32](_ => 0);
      programCounter, numCycles, instructionCount := 0, 0, 0;
      run, fault, output := true, false, [];
    }

    method Charge(cycles: int)
      modifies this`numCycles, this`instructionCount
      ensures numCycles == old(numCycles) + cycles && instructionCount == old(instructionCount) + 1
    {
      numCycles := numCycles + cycles;
      instructionCount := instructionCount + 1;
    }

    method Stop()
      modifies this`run, this`fault
      ensures !run && fault
    {
      run, fault := false, true;
    }

    method WriteString()
      requires Valid()
      modifies this`output, this`run, this`fault
      ensures if 0 <= registers[31] < NUM_STRINGS
              then output == old(output) + [strings[registers[31]]] && run == old(run) && fault == old(fault)
              else output == old(output) && !run && fault
    {
      if 0 <= registers[31] < NUM_STRINGS {
        output := output + [strings[registers[31]]];
      } else {
        Stop();
      }
    }

    method SystemCall()
      requires Valid() && run
      modifies this`output, this`run, this`fault, this`numCycles, this`instructionCount
      ensures Valid() && Now() == Charged(old(Handle(program, strings, Now(), Syscall)), Syscall)
    {
      if registers[29] == 1 {
        WriteString();
      } else if registers[29] == 2 {
        run := false;
      }
      Charge(8);
    }

    // One handler for each instruction code.

    method AddImmediate(rd: register, rs: register, imm: int32)
      requires Valid() && run
      modifies this, registers
      ensures Valid() && Now() == Charged(old(Handle(program, strings, Now(), Addi(rd, rs, imm))), Addi(rd, rs, imm))
    {
      hide Int32;
      registers[rd] := Int32(registers[rs] as int + imm);
      Charge(6);
    }

    method SubImmediate(rd: register, rs: register, imm: int32)
      requires Valid() && run
      modifies this, registers
      ensures Valid() && Now() == Charged(old(Handle(program, strings, Now(), Subi(rd, rs, imm))), Subi(rd, rs, imm))
    {
      hide Int32;
      registers[rd] := Int32(registers[rs] as int - imm);
      Charge(6);
    }

    method BranchAlways(offset: int32)
      requires Valid() && run
      modifies this, registers
      ensures Valid() && Now() == Charged(old(Handle(program, strings, Now(), B(offset))), B(offset))
    {
      hide Int32;
      programCounter := programCounter + offset;
      Charge(4);
    }

    method BranchIfZero(rs: register, offset: int32)
      requires Valid() && run
      modifies this, registers
      ensures Valid() && Now() == Charged(old(Handle(program, strings, Now(), Beqz(rs, offset))), Beqz(rs, offset))
    {
      hide Int32;
      if registers[rs] == 0 {
        programCounter := programCounter + offset;
      }
      Charge(5);
    }

    method BranchIfGreaterEqual(rs1: register, rs2: register, offset: int32)
      requires Valid() && run
      modifies this, registers
      ensures Valid() && Now() == Charged(old(Handle(program, strings, Now(), Bge(rs1, rs2, offset))), Bge(rs1, rs2, offset))
    {
      hide Int32;
      if registers[rs1] >= registers[rs2] {
        programCounter := programCounter + offset;
      }
      Charge(5);
    }

    method BranchIfNotEqual(rs1: register, rs2: register, offset: int32)
      requires Valid() && run
      modifies this, registers
      ensures Valid() && Now() == Charged(old(Handle(program, strings, Now(), Bne(rs1, rs2, offset))), Bne(rs1, rs2, offset))
    {
      hide Int32;
      if registers[rs1] != registers[rs2] {
        programCounter := programCounter + offset;
      }
      Charge(5);
    }

    method LoadAddress(rd: register, address: nat)
      requires Valid() && run
      modifies this, registers
      ensures Valid() && Now() == Charged(old(Handle(program, strings, Now(), La(rd, address))), La(rd, address))
    {
      hide Int32;
      if address < |program.data| {
        registers[rd] := program.data[address];
      } else {
        Stop();
      }
      Charge(5);
    }

    method LoadByte(rd: register, ro: register)
      requires Valid() && run
      modifies this, registers
      ensures Valid() && Now() == Charged(old(Handle(program, strings, Now(), Lb(rd, ro))), Lb(rd, ro))
    {
      hide Int32;
      if 0 <= registers[ro] < STRING_LENGTH {
        registers[rd] := strings[0][registers[ro]];
      } else {
        Stop();
      }
      Charge(6);
    }

    method LoadImmediate(rd: register, imm: int32)
      requires Valid() && run
      modifies this, registers
      ensures Valid() && Now() == Charged(old(Handle(program, strings, Now(), Li(rd, imm))), Li(rd, imm))
    {
      hide Int32;
      registers[rd] := imm;
      Charge(3);
    }

    /** The switch over instruction codes. */
    method Dispatch(i: Instruction)
      requires Valid() && run
      modifies this, registers
      ensures Valid() && Now() == Charged(old(Handle(program, strings, Now(), i)), i)
    {
      hide Handle;
      EndStops(program, strings, Now());
      match i
      case Addi(rd, rs, imm) => AddImmediate(rd, rs, imm);
      case Subi(rd, rs, imm) => SubImmediate(rd, rs, imm);
      case B(offset) => BranchAlways(offset);
      case Beqz(rs, offset) => BranchIfZero(rs, offset);
      case Bge(rs1, rs2, offset) => BranchIfGreaterEqual(rs1, rs2, offset);
      case Bne(rs1, rs2, offset) => BranchIfNotEqual(rs1, rs2, offset);
      case La(rd, address) => LoadAddress(rd, address);
      case Lb(rd, ro) => LoadByte(rd, ro);
      case Li(rd, imm) => LoadImmediate(rd, imm);
      case Syscall => SystemCall();
      case End => run := false;
    }

    /** The loop of `main`.  It ends for a program that halts on its input; `bound` is a number of
        steps within which it does. */
    method RunToEnd(ghost bound: nat)
      requires Valid() && !Run(program, strings, Now(), bound).run
      modifies this, registers
      ensures Valid() && Now() == Run(program, strings, old(Now()), bound)
    {
      hide Step;
      ghost var steps := 0;
      ghost var start := Now();
      while run
        invariant Valid() && steps <= bound && Now() == Run(program, strings, start, steps)
        decreases bound - steps
      {
        if 0 <= programCounter < |program.text| {
          var i := program.text[programCounter];
          TurnIsStep(program, strings, Now());
          Dispatch(i);
          programCounter := programCounter + 1;
        } else {
          TurnIsStep(program, strings, Now());
          Stop();
        }
        RunAdd(program, strings, start, steps, 1);
        OneStep(program, strings, Run(program, strings, start, steps));
        if steps == bound {
          assert false;
        }
        steps := steps + 1;
      }
      RunAdd(program, strings, start, steps, bound - steps);
      Halted(program, strings, Now(), bound - steps);
    }
  }

  /** Sums and differences wrap to 32 bits. */
  lemma Int32Wraps(x: int)
    ensures (Int32(x) - x) % 0x1_0000_0000 == 0
  {
    var q := x / 0x1_0000_0000;
    assert x == 0x1_0000_0000 * q + x % 0x1_0000_0000;
    assert Int32(x) - x == 0x1_0000_0000 * (if x % 0x1_0000_0000 < 0x8000_0000 then -q else -q - 1);
  }

  lemma EndStops(p: Program, strings: Strings, s: State)
    ensures Handle(p, strings, s, End) == s.(run := false)
  {
  }

  lemma OneStep(p: Program, strings: Strings, s: State)
    ensures Run(p, strings, s, 1) == Step(p, strings, s)
  {
  }

  lemma TurnIsStep(p: Program, strings: Strings, s: State)
    requires s.run
    ensures Step(p, strings, s)
            == if 0 <= s.pc < |p.text| then Execute(p, strings, s, p.text[s.pc]) else Fault(s)
  {
    hide Handle;
  }
  /** What has been printed stays printed, in order: a step adds at most one string, at the end, and END
      stops the machine for nothing. */
  lemma StepPrints(p: Program, strings: Strings, s: State)
    ensures var t := Step(p, strings, s); t.output == s.output || exists b: Buffer :: t.output == s.output + [b]
    ensures Execute(p, strings, s, End) == s.(run := false, pc := s.pc + 1)
  {
    hide Int32;
  }

  lemma {:induction false} OutputGrows(p: Program, strings: Strings, s: State, m: nat, n: nat)
    ensures Run(p, strings, s, m).output <= Run(p, strings, s, m + n).output
  {
    hide Step;
    if n > 0 {
      OutputGrows(p, strings, s, m, n - 1);
      RunAdd(p, strings, s, m + n - 1, 1);
      StepPrints(p, strings, Run(p, strings, s, m + n - 1));
      assert Run(p, strings, Run(p, strings, s, m + n - 1), 1)
          == Run(p, strings, Step(p, strings, Run(p, strings, s, m + n - 1)), 0);
    }
  }
}
