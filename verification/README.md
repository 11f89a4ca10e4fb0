# SPIM's assembler and interpreter, modelled and verified in Dafny

SPIM 8.0 assembles MIPS32 source and interprets the result.  This project models both and proves that
they fit together: running what the assembler emits does what the source operation says.

`dafny verify dfyconfig.toml` checks everything.

The modules, from the bottom up:

- `words.dfy`, `options.dfy`, `isa.dfy`: 32-bit words, and the integer instructions by their architectural
  meaning ("MIPS32 Architecture For Programmers, Volume II", section 3.2), one pure step at a time.
- `interpreter.dfy`: the processor as SPIM writes it (limb multiplication, carry and borrow tests, byte
  masks, sign-bit tests, delayed-load slots), a class whose every step is proved to be that pure step.
- `delayed.dfy`: when delayed loads can and cannot be told from immediate ones.
- `immediates.dfy`, `control.dfy`: the splitting of 32-bit immediates, and where branches and jumps go.
- `delayslots.dfy`: whole runs with delayed branches, and when they are those without.
- `symbols.dfy`, `textsegment.dfy`: forward references, their chains of uses, and the text segment in place.
- `pseudo.dfy`, `arithmetic.dfy`, `unaligned.dfy`, `grammar.dfy`, `programs.dfy`: the pseudo-instructions, what
  running their code does, the grammar actions that assemble it, and the whole way from an action to a run.
- `labels.dfy`, `labelruns.dfy`: the symbol table with its hash chains and its list of local labels, and whole
  runs of it.
- `codeorder.dfy`, `opcodes.dfy`, `architecture.dfy`, `encoding.dfy`: the opcode table, the codes the architecture
  gives, binary encoding and decoding.
- `laws.dfy`: what the instructions and some pseudo-instructions do, said another way: bits, integers, and how
  one instruction answers to another.
- `memory.dfy`, `memoryruns.dfy`, `data.dfy`: segments, the growing stack, whole runs of accesses, and the data
  directives.
- `console.dfy`: the memory-mapped receiver and transmitter.
- `breakpoints.dfy`, `runstack.dfy`: breakpoints planted in the text, and the stack a program starts with.
- `gprsim.dfy`, `palindrome.dfy`: the small machine of Project 2 and its palindrome program.

The mode is the default one: little-endian, pseudo-instructions allowed, no delayed branches and no delayed
loads, except where a theorem is about the other setting.  Operands of pseudo-instructions are not `$1`, which
the assembler uses itself, and destinations are not `$0`.  A fatal error or `run_error` is a failed outcome;
what the user types, the command line and the environment are parameters.

Where the code does not do what it is for, the theorems say exactly when it does:

- a constant load or store offset in [0x8000, 0xffff] is assembled into one instruction that sign-extends it
  (`Immediates.AddressCorrect`), although the same offset from a label defined later comes out right
  (`Symbols.AssembledAccessCorrect`);
- `bgt` and `ble` with 2^31 - 1 compare with 2^31 wrapped around (`PseudoOps.ImmediateComparison`);
- `sub` with 0x80000000 adds it instead (`Immediates.SubtractImmediate`);
- `divu` skips 0x80000000 by 0xffffffff, which only `div` need skip (`PseudoArithmetic.UnsignedPairIsWrong`);
- some rows of the opcode table, and jumps with bit 24 of the target set, do not survive encoding and decoding
  (`Encoding.SoundRows`, `Encoding.JumpRoundTrip`);
- a branch field of more than 14 bits goes elsewhere than the architecture has it, exactly as
  `ControlTransfer.DisplacementExactly` says;
- synci has a code that the architecture gives to no instruction (`ArchitectureCodes.CodesAreArchitectural`);
- a breakpoint at a place in the text without an instruction is planted but not recorded
  (`Breakpoints.AddKeeps`);
- recording a local label that is on the list with address 0 already turns the list of local labels into a cycle
  (`Labels.SymbolTable.RecordLabel`, `LabelRuns.ZeroTwice`);
- defining a label as 0 drops its uses and leaves it undefined (`TextSegment.Segment.Define`,
  `Programs.ZeroLosesUses`);
- `ush` with its base register as its source rotates the base between its two stores (`Unaligned.UshAddresses`);
- the stack pointer a program starts with is aligned to double words, as the loader means it to be, only if the
  entries of the two vectors are even in number (`RunStack.Loader.Initialize`);
- the stack at least doubles when it grows, so that growing for one address can put another one, within the limit,
  out of reach (`MemoryRuns.DoublingRefuses`, `MemoryRuns.StaysAccessible`).

## Model

| member | source | states |
|---|---|---|
| Interpreter.Cpu.UnsignedMultiply | spim-8.0/CPU/run.c:1747-1776 | the four 16-bit products and the two carry tests leave HI * 2^32 + LO equal to the exact 64-bit product, for all operands |
| Interpreter.LimbSum | spim-8.0/CPU/run.c:1762-1777 | at most one carry comes out of the middle column, and carry, middle and low parts add up to the four products |
| Interpreter.Cpu.SignedMultiply | spim-8.0/CPU/run.c:1782-1805 | HI and LO hold the two words of the exact signed product, -2^31 included, where the negation wraps |
| Interpreter.NegateWords | spim-8.0/CPU/run.c:1796-1804 | complementing both words and adding 1 with a carry from LO to HI negates a 64-bit number |
| Interpreter.Cpu.MultiplyAdd | spim-8.0/CPU/run.c:713-735 | MADD and MADDU add the product to HI:LO modulo 2^64 |
| Interpreter.AddWithCarry | spim-8.0/CPU/run.c:725-733 | the carry test on the low words makes the word-wise sum the 64-bit sum |
| Interpreter.Cpu.MultiplySubtract | spim-8.0/CPU/run.c:763-787 | MSUB and MSUBU subtract the product from HI:LO modulo 2^64 |
| Interpreter.SubtractWithBorrow | spim-8.0/CPU/run.c:775-785 | the borrow test on the low words makes the word-wise difference the 64-bit difference |
| Interpreter.Cpu.DivideInst | spim-8.0/CPU/run.c:499-519 | quotient and remainder truncate toward zero; a zero divisor and the pair 0x80000000, 0xffffffff leave HI and LO alone, for DIV and DIVU alike |
| Words.TruncDivUnique | spim-8.0/CPU/run.c:499-508 | the quotient and remainder are the one pair with a = q * b + r, |r| < |b| and r of the sign of a |
| Interpreter.Cpu.CheckedInstruction | spim-8.0/CPU/run.c:302-322 | ADD, ADDI and SUB trap exactly when the integer result does not fit, and write nothing then |
| Interpreter.Cpu.RegisterInstruction | spim-8.0/CPU/run.c:328-334 | the C expressions on two registers give what the architecture says, and nothing else changes |
| Interpreter.Cpu.ShiftByRegister | spim-8.0/CPU/run.c:894-903 | masking the distance to five bits is taking it modulo 32, so that the range test always holds |
| Interpreter.Cpu.ShiftInstruction | spim-8.0/CPU/run.c:883-892 | shifts by a constant, with the range test that leaves other distances alone |
| Interpreter.Cpu.ImmediateInstruction | spim-8.0/CPU/run.c:912-928 | sign-extending the short everywhere, and masking it off again for the logical operations, is what the architecture says of each immediate |
| Interpreter.MaskUpper | spim-8.0/CPU/run.c:591-593 | shifting and masking the sign-extended immediate is the upper half LUI loads |
| Interpreter.MaskHalf | spim-8.0/CPU/run.c:336-338 | masking the sign-extended immediate with 0xffff is zero extension |
| Interpreter.Cpu.ConditionalMove | spim-8.0/CPU/run.c:753-761 | MOVN and MOVZ move, or leave the destination alone |
| Interpreter.Cpu.LoadInstruction | spim-8.0/CPU/run.c:560-599 | loads of bytes, halves and words, masked for the unsigned ones, held back if loads are delayed, with their faults |
| Interpreter.Cpu.StoreInstruction | spim-8.0/CPU/run.c:866-881 | stores of bytes, halves and words, with their faults; SC is a plain store |
| Interpreter.Cpu.LoadWordLeft | spim-8.0/CPU/run.c:609-659 | the mask table for LWL gives the architectural merge at each of the four alignments |
| Interpreter.Cpu.LoadWordRight | spim-8.0/CPU/run.c:661-711 | the same for LWR |
| Interpreter.Cpu.StoreWordLeft | spim-8.0/CPU/run.c:1009-1058 | reading, merging and writing back the word changes exactly the bytes SWL owns |
| Interpreter.Cpu.StoreWordRight | spim-8.0/CPU/run.c:1060-1109 | the same for SWR |
| Interpreter.LeftMasksJoin | spim-8.0/CPU/run.c:636-655 | masking and shifting is joining bytes: from the top of the memory word and the bottom of the register |
| Interpreter.Cpu.BranchInstruction | spim-8.0/CPU/run.c:347-445 | without delayed branches: the tests on zero and on the sign bit are the signed comparisons; links and nullified instructions as the architecture says |
| Interpreter.Cpu.JumpInstruction | spim-8.0/CPU/run.c:528-558 | without delayed branches: J, JAL, JR and JALR go to their targets and link |
| InstructionLaws.LogicBits | spim-8.0/CPU/run.c:1195-1197 | AND, OR, XOR and NOR bit by bit, as products and sums of bits |
| InstructionLaws.ImmediateBits | spim-8.0/CPU/run.c:1199-1201 | ANDI, ORI and XORI bit by bit, with zeros above the 16 bits of the constant |
| InstructionLaws.ShiftBits | spim-8.0/CPU/run.c:883-892 | SLL, SRL and SRA move every bit by the distance; SRA brings in copies of the sign |
| InstructionLaws.VariableShifts | spim-8.0/CPU/run.c:894-903 | the shifts by a register go by its five low bits |
| InstructionLaws.ChecksTheUnchecked | spim-8.0/CPU/run.c:302-322 | ADD, SUB and ADDI trap exactly when ADDU, SUBU or ADDIU would not leave the integer result, and else leave the same |
| InstructionLaws.MovesByBranches | spim-8.0/CPU/run.c:753-761 | MOVN and MOVZ move exactly when BNE or BEQ with $0 would be taken |
| InstructionLaws.MultiplicationsCompared | spim-8.0/CPU/run.c:713-838 | what each of the seven multiplications makes of HI:LO modulo 2^64, and that it does nothing else |
| InstructionLaws.MovesToAndFrom | spim-8.0/CPU/run.c:745-751 | HI and LO are two registers, each reached by its own moves |
| InstructionLaws.LoadsInteger | spim-8.0/CPU/run.c:560-599 | each load leaves the integer that its bytes stand for, signed or unsigned as its name says |
| InstructionLaws.StoresBytes | spim-8.0/CPU/run.c:866-881 | each store changes exactly its own bytes, to the low bytes of the register |
| InstructionLaws.AccessFaults | spim-8.0/CPU/run.c:560-599 | an access faults as unaligned exactly when it is not aligned to its size, and as a bus error exactly when it is and the memory is not there; nothing is written then |
| InstructionLaws.LoadsAsMemory | spim-8.0/CPU/run.c:560-599 | the loads leave what the simulated memory returns for their size, the unsigned ones its low bits |
| InstructionLaws.AlignedLikeUnaligned | spim-8.0/CPU/parser.y:678-703 | at an even address lh and lhu leave what ulh and ulhu put together from two bytes |
| InstructionLaws.BranchesCompare | spim-8.0/CPU/run.c:347-440 | the branches on a sign or on zero go by what SLT says of the register and $0, BEQ and BNE by what SUBU leaves |
| InstructionLaws.BranchVariants | spim-8.0/CPU/run.c:347-455 | a linking or likely branch is taken when its plain form is and goes where it goes; the link is the next instruction, which a likely branch that is not taken skips |
| InstructionLaws.JumpVariants | spim-8.0/CPU/run.c:528-558 | where the four jumps go, and what the calls among them link |
| InstructionLaws.RelationsAgree | spim-8.0/CPU/parser.y:1204-1261 | each comparison of the pseudo-instructions is another one turned round or denied, down to SLT and SLTU |
| InstructionLaws.RotationMovesBits | spim-8.0/CPU/parser.y:1151-1166 | rol moves every bit up by the distance, around the word, and ror moves it down |
| InstructionLaws.RotationByConstant | spim-8.0/CPU/parser.y:1169-1190 | the same by a constant |
| InstructionLaws.QuotientAndRemainder | spim-8.0/CPU/parser.y:2739-2763 | the quotient and the remainder of the division pseudo-instructions belong together, signed and unsigned |
| InstructionLaws.ProductsCompared | spim-8.0/CPU/parser.y:2766-2788 | the signed product is negative exactly for factors of different signs and has the low word of the unsigned one |
| Interpreter.Cpu.StepWithSlot | spim-8.0/CPU/run.c:109-140 | with delayed branches: a taken branch or a jump runs its slot by a nested turn and then goes to its target, which J and JAL take from the PC after the slot |
| Interpreter.Cpu.LoadInst | spim-8.0/CPU/run.c:150-166 | a loaded value goes to its register, or to the first slot |
| Interpreter.Cpu.DoDelayedUpdate | spim-8.0/CPU/run.c:169-181 | the second slot is written to its register and the first one moves up |
| Interpreter.Cpu.Step | spim-8.0/CPU/run.c:238-302 | one instruction of the loop, from clearing $0 through the delayed-load update to moving the PC, is one step of the architectural machine |
| Interpreter.Cpu.RunWithSlots | spim-8.0/CPU/run.c:230-302 | the inner loop keeps that over any number of turns, for a program whose slots hold no branches or jumps |
| DelaySlots.NopsAreInvisible | spim-8.0/CPU/run.c:98-140 | a program with a nop in every slot, without calls, its branches assembled for slots and no jump in the last two words of a region of 2^28 bytes, runs turn by turn as the same program does without delayed branches |
| DelaySlots.SameLabel | spim-8.0/CPU/sym-tbl.c:306-321 | a branch to a label in reach, assembled for slots or not, goes to the same place on its own machine |
| DelaySlots.CallLinksPastSlot | spim-8.0/CPU/run.c:532-550 | with a nop in its slot a call leaves in $31 the address after the slot, changes nothing else, and goes to its target |
| DelaySlots.BranchLinksPastSlot | spim-8.0/CPU/run.c:370-383 | a linking branch likewise, taken or not |
| DelaySlots.SlotCallReturns | spim-8.0/CPU/run.c:532-558 | with delay slots a subroutine that comes to jr $31, with $31 as the call left it, returns past the call and its slot |
| Interpreter.Cpu.RunSteps | spim-8.0/CPU/run.c:230-302 | the inner loop keeps that over any number of instructions |
| DelayedLoads.ImmediateIsStep | spim-8.0/CPU/run.c:143-164 | with the flag off, the two-slot machine is the plain one |
| DelayedLoads.StepSettles | spim-8.0/CPU/run.c:143-181 | one step simulates: applying both pending slots in order commutes with a step that respects the delay |
| DelayedLoads.DelayIsInvisible | spim-8.0/CPU/run.c:143-181 | for every run in which no load targets $0 and no instruction reads or writes the register loaded just before it, registers and memory agree with the immediate machine after every number of steps |
| DelayedLoads.DelayIsVisible | spim-8.0/CPU/run.c:143-181 | whenever the next instruction copies the loaded register, the two machines differ: one copies the word, the other the old value |
| Immediates.ComputationCorrect | spim-8.0/CPU/inst.c:192-356 | for every 32-bit constant, at most three instructions leave in rt what the operation on the full operand gives, or end in the overflow trap of ADDI with rt untouched; nothing else but $1 changes |
| Immediates.ComputationLength | spim-8.0/CPU/inst.c:199-345 | how many instructions a computation with a constant takes: one exactly when the field, extended as the operation extends it, holds the constant, or a half of the constant is 0 and there is no register operand |
| Immediates.AccessLength | spim-8.0/CPU/inst.c:199-345 | a load or store with a constant offset takes one instruction exactly for offsets that fit 16 bits, signed or not, else two, or three with a base register |
| Immediates.ProduceCorrect | spim-8.0/CPU/inst.c:340-356 | the constant ends up in the register, whether built by LUI, ORI or both |
| Immediates.AddressCorrect | spim-8.0/CPU/inst.c:244-293 | a load or store with constant offset v accesses R[rs] + v modulo 2^32 if and only if v is not in [0x8000, 0xffff], where the emitted single instruction sign-extends |
| Immediates.SubtractImmediate | spim-8.0/CPU/parser.y:1047-1081 | adding the negated constant is the subtraction, overflow trap included, if and only if the constant is not 0x80000000 |
| TextSegment.Segment.ITypeInst | spim-8.0/CPU/inst.c:192-237 | the emitting routine appends exactly the instructions whose effect is proved above; its mutual recursion terminates |
| TextSegment.Segment.ITypeInstFullWord | spim-8.0/CPU/inst.c:243-334 | the same for the routine that splits 32-bit values |
| ControlTransfer.BranchArrives | spim-8.0/CPU/sym-tbl.c:306-321 | the field stored for a branch leads to the label if and only if the displacement is in [-32768, 32764], with delay slots or without, label known before or after |
| ControlTransfer.DisplacementExactly | spim-8.0/CPU/inst.h:131-133 | the displacement is four times the field exactly if bit 15 of the product is clear or the field is in [-0x2000, 0), and else differs by a multiple of 2^16 |
| ControlTransfer.ArchitecturalTarget | spim-8.0/CPU/run.c:109-126 | for fields in [-0x2000, 0x2000) a taken branch goes where the architecture says, counting from its slot if it has one |
| ControlTransfer.SameField | spim-8.0/CPU/sym-tbl.c:306-321 | a label known when its branch is assembled, and perhaps not cut to 16 bits, gives the same field as one patched in later |
| ControlTransfer.DelayedBranchArrives | spim-8.0/CPU/run.c:109-140 | with delay slots a taken branch, linking or not, runs its slot and then reaches the label, exactly when it is in reach |
| ControlTransfer.DelayedJumpArrives | spim-8.0/CPU/run.c:528-538 | with delay slots J and JAL run their slot and then reach an aligned label, exactly when it shares the top four bits of the address after the slot |
| ControlTransfer.DelayedRegisterJumpArrives | spim-8.0/CPU/run.c:540-558 | with delay slots JR and JALR go to what the register held before their slot and their link |
| ControlTransfer.JumpArrives | spim-8.0/CPU/sym-tbl.c:322-332 | without delay slots a jump reaches an aligned label if and only if the label shares the top four bits of the PC |
| Symbols.DefinitionResolves | spim-8.0/CPU/sym-tbl.c:264-281 | defining a label resolves every line that waits for it, anywhere among other lines, and leaves all other lines as they are |
| Symbols.AccessResolves | spim-8.0/CPU/sym-tbl.c:333-369 | resolving an access with a negative low half adds 0x10000 to its own LUI, found across the ADDU if there is one, and changes no other entry |
| Symbols.AssembledAccessCorrect | spim-8.0/CPU/sym-tbl.c:296-391 | whether its label was defined before or after it, a load or store accesses R[rs] + label + offset modulo 2^32, except that a known sum in [0x8000, 0xffff] goes wrong |
| Symbols.SymbolAccessCorrect | spim-8.0/CPU/sym-tbl.c:333-369 | a patched LUI, ADDU, access sequence accesses R[rs] + label + offset for every label address |
| Symbols.AssembledComputeCorrect | spim-8.0/CPU/inst.c:192-334 | a computation with a label operand gives what the operation on label + offset means, for early and late labels |
| Symbols.AssembledBranchCorrect | spim-8.0/CPU/sym-tbl.c:306-321 | an assembled branch, its label early or late, is the branch computed at its own address, and targets the label exactly when it is in reach |
| Symbols.OrderMatters | spim-8.0/CPU/sym-tbl.c:264-281 | resolving the LUI before its access would be right if and only if the low half is below 0x8000: the newest-first order is needed |
| TextSegment.Segment.Assemble | spim-8.0/CPU/inst.c:192-334 | appends one source line and records its uses in front of earlier ones; every line stays resolved or waiting with all its uses on the chain |
| TextSegment.Segment.Define | spim-8.0/CPU/sym-tbl.c:183-210 | resolves the chain of a label and keeps that invariant; refuses a second definition without changing anything; an address of 0 leaves the label undefined and drops its uses unpatched |
| TextSegment.Segment.AssembleImmediate | spim-8.0/CPU/inst.c:192-237 | the same for any instruction with a constant, as the lines of its real instructions |
| Symbols.AssembledJumpCorrect | spim-8.0/CPU/inst.c:363-377 | an assembled jump or call, its label early or late, carries the label in its target field, and is sent to an aligned label exactly when the label shares the top four bits of the PC |
| TextSegment.Segment.ResolveUse | spim-8.0/CPU/sym-tbl.c:295-391 | patches one use in place: branch fields, jump targets, access fields with the carry into LUI, plain fields |
| TextSegment.Segment.InstFor | spim-8.0/CPU/sym-tbl.c:226-243 | appends the instruction and puts its use at the head of the label's chain |
| PseudoOps.SetCorrect | spim-8.0/CPU/parser.y:2791-2834 | seq to sleu on registers leave 1 or 0 in rd as the signed or unsigned comparison of the original values says, also when rd is a source, and change only rd |
| PseudoOps.SetImmediateCorrect | spim-8.0/CPU/parser.y:1199-1261 | the same with any 32-bit constant, changing only rd and $1 |
| PseudoOps.BranchCorrect | spim-8.0/CPU/parser.y:1329-1396 | bgt to bleu on registers are taken exactly when the comparison holds |
| PseudoOps.BranchImmediateCorrect | spim-8.0/CPU/parser.y:1301-1418 | with a constant they are taken exactly when the emitted comparison holds |
| PseudoOps.ImmediateComparison | spim-8.0/CPU/parser.y:1336-1344 | the emitted comparison is the meant one for all register values if and only if it is not bgt or ble with 2^31 - 1 |
| PseudoArithmetic.AbsCorrect | spim-8.0/CPU/parser.y:860-867 | abs leaves the absolute value, and traps with overflow exactly for -2^31 |
| PseudoArithmetic.RotateCorrect | spim-8.0/CPU/parser.y:1151-1166 | rol and ror by a register leave the 32-bit rotation, for any distance and any aliasing of rd |
| PseudoArithmetic.RotateImmediateCorrect | spim-8.0/CPU/parser.y:1169-1190 | the same by a constant |
| PseudoArithmetic.RotateLeftBits | spim-8.0/CPU/parser.y:1160-1166 | bit j of the operand is bit (j + k) mod 32 of the rotation |
| PseudoArithmetic.MulCorrect | spim-8.0/CPU/parser.y:2766-2788 | mulo and mulou break exactly when the signed or unsigned product does not fit 32 bits; otherwise rd holds it; HI:LO holds the full product either way |
| PseudoArithmetic.MulImmediateCorrect | spim-8.0/CPU/parser.y:1117-1128 | the same with a constant, zero included |
| PseudoArithmetic.DivCorrect | spim-8.0/CPU/parser.y:2739-2763 | div, divu, rem and remu break exactly on a zero divisor; otherwise rd holds the truncated quotient or remainder, or old LO or HI for the skipped pair |
| PseudoArithmetic.DivImmediateCorrect | spim-8.0/CPU/parser.y:1099-1109 | the same with a nonzero constant, without the check |
| PseudoArithmetic.UnsignedPairIsWrong | spim-8.0/CPU/run.c:510-519 | performing DIVU leaves the quotient of its registers in LO, whatever LO held, if and only if they are not 0x80000000 and 0xffffffff |
| Unaligned.UlwCorrect | spim-8.0/CPU/parser.y:654-673 | ulw loads the four bytes at any alignment |
| Unaligned.UswCorrect | spim-8.0/CPU/parser.y:739-758 | usw writes exactly the four bytes at any alignment |
| Unaligned.UswThenUlw | spim-8.0/CPU/parser.y:654-758 | usw followed by ulw of the same address gives the register back |
| Unaligned.UlhCorrect | spim-8.0/CPU/parser.y:678-703 | ulh and ulhu load two bytes at any alignment, sign- or zero-extended |
| Unaligned.UshCorrect | spim-8.0/CPU/parser.y:761-785 | ush writes exactly two bytes, and its two rotations give the source register back |
| Unaligned.RotateAndBack | spim-8.0/CPU/parser.y:768-781 | the second rotation undoes the first, and between them the second byte is lowest |
| Unaligned.PairAddresses | spim-8.0/CPU/parser.y:654-758 | two accesses by one base register touch the right addresses exactly when neither offset is in [0x8000, 0xffff], if the base survives the first one, and exactly when the base survives, if neither is |
| Unaligned.UshAddresses | spim-8.0/CPU/parser.y:761-785 | the two stores of ush, also when the stored register is its own base, touch the right addresses exactly when neither offset is in [0x8000, 0xffff], if the base survives the rotation between them, and exactly when it does, which means that its four bytes are equal, if neither is |
| Grammar.DivInst | spim-8.0/CPU/parser.y:2739-2763 | assembles the division code as new lines of the segment, which stays valid, with everything already there |
| Grammar.MultInst | spim-8.0/CPU/parser.y:2766-2788 | assembles the multiplication code as new lines of the segment, which stays valid, with everything already there |
| Grammar.SetLeInst | spim-8.0/CPU/parser.y:2791-2798 | assembles the code of sle and sleu as new lines of the segment, which stays valid, with everything already there |
| Grammar.SetGtInst | spim-8.0/CPU/parser.y:2801-2805 | assembles the code of sgt and sgtu as new lines of the segment, which stays valid, with everything already there |
| Grammar.SetGeInst | spim-8.0/CPU/parser.y:2808-2815 | assembles the code of sge and sgeu as new lines of the segment, which stays valid, with everything already there |
| Grammar.SetEqInst | spim-8.0/CPU/parser.y:2818-2834 | assembles the code of seq and sne as new lines of the segment, which stays valid, with everything already there |
| Grammar.SetImmediateInst | spim-8.0/CPU/parser.y:1204-1261 | assembles the code with a constant, loaded into $1 unless it is 0 as new lines of the segment, which stays valid, with everything already there |
| Grammar.BranchInst | spim-8.0/CPU/parser.y:1329-1396 | assembles the code of a branch on two registers to a label, known or not as new lines of the segment, which stays valid, with everything already there |
| Grammar.BranchImmediateInst | spim-8.0/CPU/parser.y:1301-1418 | assembles the code of a branch with a constant to a label, known or not as new lines of the segment, which stays valid, with everything already there |
| Grammar.JumpInst | spim-8.0/CPU/parser.y:1421-1428 | assembles a jump or a call to a label, known or not, also when jr or jalr is written as new lines of the segment, which stays valid, with everything already there |
| Grammar.AbsInst | spim-8.0/CPU/parser.y:860-867 | assembles the code of abs as new lines of the segment, which stays valid, with everything already there |
| Grammar.RotateInst | spim-8.0/CPU/parser.y:1151-1166 | assembles the code of rol and ror as new lines of the segment, which stays valid, with everything already there |
| Grammar.RotateImmediateInst | spim-8.0/CPU/parser.y:1169-1190 | assembles the code of rol and ror by a constant as new lines of the segment, which stays valid, with everything already there |
| Grammar.UlwInst | spim-8.0/CPU/parser.y:654-673 | assembles the code of ulw as new lines of the segment, which stays valid, with everything already there |
| Grammar.UswInst | spim-8.0/CPU/parser.y:739-758 | assembles the code of usw as new lines of the segment, which stays valid, with everything already there |
| Grammar.UlhInst | spim-8.0/CPU/parser.y:678-703 | assembles the code of ulh and ulhu as new lines of the segment, which stays valid, with everything already there |
| Grammar.UshInst | spim-8.0/CPU/parser.y:761-785 | assembles the code of ush, both rotations included as new lines of the segment, which stays valid, with everything already there |
| Programs.StandAfter | spim-8.0/CPU/parser.y:2739-2834 | what an action has assembled stands, from the line it began at, as the theorems on loaded programs require |
| Programs.LinesInText | spim-8.0/CPU/parser.y:2791-2834 | in the text of a valid segment consecutive lines of one instruction each are consecutive instructions, every branch with the field of its label, known early or late |
| Programs.ActionPlaced | spim-8.0/CPU/parser.y:2739-2834 | the code of any action stands in the text as the theorems about it require |
| Programs.SetRuns | spim-8.0/CPU/parser.y:2791-2834 | a set pseudo-instruction at any line of a loaded program leaves its result |
| Programs.MulRuns | spim-8.0/CPU/parser.y:2766-2788 | mulo and mulou at any line of a loaded program give the product or break |
| Programs.BranchRuns | spim-8.0/CPU/parser.y:1329-1396 | a branch pseudo-instruction at any line, its label defined before or after it, goes where the comparison says |
| Programs.BranchImmediateRuns | spim-8.0/CPU/parser.y:1301-1418 | the same with a constant |
| Programs.JumpRuns | spim-8.0/CPU/run.c:528-538 | a jump or a call at any line, its label early or late, takes one step to the label, exactly when that is in its region of 2^28 bytes, leaves the return address if it is a call, and changes nothing else |
| Programs.CallReturns | spim-8.0/CPU/run.c:532-558 | a subroutine that comes to jr $31, with $31 as the call left it, returns to the instruction after the call |
| Programs.JumpForward | spim-8.0/CPU/parser.y:1421-1428 | assembling a jump and defining its label afterwards gives the line that theorem requires |
| Programs.ZeroLosesUses | spim-8.0/CPU/sym-tbl.c:183-222 | uses recorded before their label is defined with address 0 are lost: another address later patches none of them |
| Programs.BranchForward | spim-8.0/CPU/parser.y:1329-1396 | assembling a pseudo-branch and defining its label afterwards gives the lines that theorem requires |
| Encoding.Search | spim-8.0/CPU/spim-utils.c:477-496 | binary search of the signed-sorted table finds a row with the code exactly when there is one |
| CodeOrder.SignedLessIsSigned | spim-8.0/CPU/inst.c:626-637 | the order by which the table is sorted is that of the codes as signed words |
| CodeOrder.LessIsUnsigned | spim-8.0/CPU/inst.c:626-637 | the byte-wise order that the search uses is the order of unsigned words; with the sign bit flipped, of signed ones |
| Encoding.Decode | spim-8.0/CPU/inst.c:1411-1530 | decoding gives an instruction of a row whose code is the key of the word, or an invalid one if there is no such row |
| Encoding.EncodedLayout | spim-8.0/CPU/inst.c:1236-1345 | for every format but the floating-point ones the word is the row's code with rs, rt, rd, the distance, the immediate and the target in the one place that each has |
| Encoding.DecodedLayout | spim-8.0/CPU/inst.c:1411-1530 | the operands decoded from any word are well-formed and, laid out in those places, are the bits of the word that the format has for operands |
| Encoding.RoundTripExactly | spim-8.0/CPU/inst.c:1238-1530 | decode(encode(i)) gives back opcode and fields of every well-formed i of an integer row if and only if the row is sound: its code survives the mask and overlaps neither its operands nor do they overlap the key |
| Encoding.SoundRows | spim-8.0/CPU/op.h:70-524 | the rows that are not sound are exactly those whose code the mask cuts (ssnop, ehb, jr.hb, jalr.hb, rotr, rotrv, di, ei, rdhwr, wsbh, seb, seh among the integer ones) and synci and cop2 |
| Encoding.UnsoundFails | spim-8.0/CPU/inst.c:1417-1448 | for each row that is not sound there are operands that do not come back |
| Encoding.JumpRoundTrip | spim-8.0/CPU/inst.c:1518-1519 | a jump comes back if and only if bit 24 of its target is clear: the decode mask 0x2ffffff has a hole there |
| Encoding.UniqueCode | spim-8.0/CPU/inst.c:1385-1395 | a code that survives the mask belongs to one row only, so the search is unambiguous |
| Encoding.SortedTable | spim-8.0/CPU/inst.c:1399-1406 | sorting the rows gives a table as the other theorems assume |
| OpcodeTable.TableIsRegular | spim-8.0/CPU/op.h:70-524 | the rows a decoder sees are strictly ordered by code, and sound but for the two that overlap |
| ArchitectureCodes.CodesAreArchitectural | spim-8.0/CPU/op.h:60-524 | every row a decoder sees in full, but for those of coprocessors 0 and 2 and of SPECIAL3, has the code that the architecture's tables give its name, except synci |
| Memory.Store.SetMem | spim-8.0/CPU/mem.c:387-430 | an aligned write to a segment or within reach of the stack puts exactly its little-endian bytes into the flat byte map; any other is refused with the right fault and changes nothing |
| Memory.Store.ReadMemByte | spim-8.0/CPU/mem.c:332-343 | reads the byte map, sign-extended, and does not change it even when the stack grows |
| Memory.Store.ReadMemHalf | spim-8.0/CPU/mem.c:346-357 | the same for halves |
| Memory.Store.ReadMemWord | spim-8.0/CPU/mem.c:360-371 | the same for words |
| Memory.Store.BadMemRead | spim-8.0/CPU/mem.c:450-505 | an access within 16 MB below the stack and within the limit grows it and reads 0; others fault; the boundaries move exactly as specified |
| Memory.Store.BadMemWrite | spim-8.0/CPU/mem.c:508-586 | the same for writes, which land in the grown stack, where the address stays accessible |
| Memory.Store.ExpandStack | spim-8.0/CPU/mem.c:234-262 | growing is invisible in the flat byte map, in which the stack has always been as large as its limit and zero-filled |
| Memory.Store.ExpandData | spim-8.0/CPU/mem.c:202-231 | the byte map grows by zeros, up to the limit, and is otherwise the same |
| Memory.CopyToTop | spim-8.0/CPU/mem.c:246-256 | the two backward loops move the old words to the top and clear the rest |
| Memory.ReadWrittenWord | spim-8.0/CPU/mem.c:333-430 | a word written reads back as a word and byte by byte |
| Memory.ReadElsewhere | spim-8.0/CPU/mem.c:333-430 | a write changes no read of any size that does not overlap it |
| Memory.ReadInteger | spim-8.0/CPU/mem.c:282-345 | a read returns the integer of its bytes: a word, a signed short or a signed char |
| Memory.RefusalRegions | spim-8.0/CPU/mem.c:440-560 | each refusal has its own region: unaligned, text, devices, within reach of the stack, nowhere |
| Memory.GrowthSuffices | spim-8.0/CPU/mem.c:234-252 | for an address below it the stack doubles, or goes as far as the address needs and no further |
| Memory.DataGrowth | spim-8.0/CPU/mem.c:216-232 | the data segment grows to whole words, and is refused exactly past its limit |
| MemoryRuns.Execute | spim-8.0/CPU/mem.c:332-430 | over any sequence of reads and writes of bytes, halves and words, and of expansions, the segments answer every call, and end, exactly as the flat byte map with the boundaries does |
| MemoryRuns.GrowthInvisible | spim-8.0/CPU/mem.c:234-262 | in a run that is served, every answer and the memory at the end are those of the byte map alone, however the stack grew |
| MemoryRuns.AnswersByAlignment | spim-8.0/CPU/mem.c:282-560 | an access answers with its own address error exactly when it is not aligned to its size, and otherwise succeeds exactly when its address is in a segment or the stack may grow to it |
| MemoryRuns.LastWriteCounts | spim-8.0/CPU/mem.c:387-430 | every byte is that of the last write that covers it, whatever the sizes of the writes |
| MemoryRuns.StaysServed | spim-8.0/CPU/mem.c:234-262 | an address in a segment stays in one over any run, and no boundary retreats |
| MemoryRuns.StaysAccessible | spim-8.0/CPU/mem.c:234-252 | an address within the limit that has not been touched stays accessible, after an access to another one, of whatever sizes, has made the stack grow, if and only if it is now inside the stack or the stack may double once more |
| MemoryRuns.DoublingRefuses | spim-8.0/CPU/mem.c:234-252 | there are two addresses within the limit of which touching one puts the other out of reach |
| DataDirectives.Assembler.StoreByte | spim-8.0/CPU/data.c:251-258 | lays one byte at the data PC and advances it by 1 |
| DataDirectives.Assembler.StoreHalf | spim-8.0/CPU/data.c:261-281 | lays the two little-endian bytes at any alignment, through the split into bytes, advances by 2 and touches nothing else |
| DataDirectives.Assembler.StoreWord | spim-8.0/CPU/data.c:284-303 | lays the four little-endian bytes at any alignment, through the split into halves, advances by 4 and touches nothing else |
| DataDirectives.Assembler.StoreString | spim-8.0/CPU/data.c:234-247 | lays the string and its terminator byte by byte |
| DataDirectives.Assembler.AlignData | spim-8.0/CPU/data.c:121-137 | moves to the least multiple of 2^k not below the data PC when nothing wraps; 0 turns alignment off |
| DataDirectives.AlignedUp | spim-8.0/CPU/data.c:121-137 | adding 2^k - 1 and masking is rounding up |
| DataDirectives.SplitBytes | spim-8.0/CPU/data.c:261-303 | the halves and bytes the recursive split passes on are the value's own bytes |
| DataDirectives.LaidReadsBack | spim-8.0/CPU/data.c:261-303 | the word, and the half with its sign, that has been laid is what the memory reads back, at any alignment of the counter |
| Console.InterruptsExact | spim-8.0/CPU/mem.c:590-740 | over every interleaving of typing, ticks, reads and writes: a device's interrupt is pending iff it is ready and enabled, a busy transmitter is not ready, a receiver with a running timer holds a character, other interrupts are untouched |
| Console.OutputIsAccepted | spim-8.0/CPU/mem.c:628-683 | the output is exactly what a transmitter described by the clock alone accepts, and READY says exactly when it would accept |
| Console.OutputIsSpaced | spim-8.0/CPU/mem.c:628-683 | accepted characters are at least TRANS_LATENCY + 1 ticks apart |
| Console.NothingLost | spim-8.0/CPU/mem.c:607-626 | a program that reads the buffer at least every RECV_INTERVAL + 1 ticks: what was typed is what it got, once and in order, followed by what is still on its way |
| Console.CharacterSurvives | spim-8.0/CPU/mem.c:607-626 | an unread character is still there after RECV_INTERVAL further ticks, whatever else happens |
| Console.CharacterReplaced | spim-8.0/CPU/mem.c:612-626 | one tick more, with another character typed, loses it |
| Console.InputIsTaken | spim-8.0/CPU/mem.c:606-626 | over every interleaving the receiver takes what is typed in order, one character at a time, at exactly the ticks that the history calls for: when the last one has been read, or has been held for more than RECV_INTERVAL ticks |
| Console.TypedArrives | spim-8.0/CPU/mem.c:606-626 | right after a tick an attentive program finds the receiver ready exactly when something typed has not been delivered, and the buffer holds the next character |
| Console.ProgramSees | spim-8.0/CPU/mem.c:717-740 | what reads of the four device words return, over any history: bit 0 and bit 1 of a control word, the last character taken and the last one accepted; writing a control word back changes nothing that was asked for |
| Console.LowByteMasks | spim-8.0/CPU/mem.c:672-676 | the character that is sent is the value masked with 0xff |
| Console.Controller.Check | spim-8.0/CPU/mem.c:606-642 | the polling routine is the specified tick |
| Console.Controller.WriteWord | spim-8.0/CPU/mem.c:647-712 | a device write is the specified event; other addresses are errors |
| Console.Controller.ReadWord | spim-8.0/CPU/mem.c:717-740 | a device read returns the specified value and empties the receiver |
| Breakpoints.Debugger.AddBreakpoint | spim-8.0/CPU/spim-utils.c:360-378 | plants the break and records the instruction at the head of the list, or does neither at a planted or foreign address |
| Breakpoints.Debugger.DeleteBreakpoint | spim-8.0/CPU/spim-utils.c:383-408 | splices out every record of the address and writes its instruction back |
| Breakpoints.Debugger.ReadInst | spim-8.0/CPU/mem.c:320-329 | reads a place of either text segment |
| Breakpoints.Debugger.SetInst | spim-8.0/CPU/mem.c:374-384 | writes a place of either text segment |
| Breakpoints.AddKeeps | spim-8.0/CPU/spim-utils.c:360-378 | adding keeps the records sound, and the logical program, if and only if it is not at a place in the text without an instruction: there the break is planted with no record |
| Breakpoints.DeleteKeeps | spim-8.0/CPU/spim-utils.c:383-408 | deleting keeps both and leaves no record of the address |
| Breakpoints.ProgramUnchanged | spim-8.0/CPU/spim-utils.c:347-408 | over any commands that add only at instructions, substituting the recorded instructions gives the original text |
| Breakpoints.AllDeleted | spim-8.0/CPU/inst.c:982-1013 | when no record is left the text is the original one |
| Breakpoints.BreaksWhereTold | spim-8.0/CPU/spim-utils.c:347-408 | after any commands that add only at instructions, a place in the text holds the break, and exactly one record of its own instruction, if the last command that names it was an addition, and otherwise its instruction and no record |
| Breakpoints.Execute | spim-8.0/CPU/spim-utils.c:347-408 | the debugger in place carries out any sequence of commands as the specification these theorems are about |
| RunStack.Loader.Initialize | spim-8.0/CPU/spim-utils.c:242-281 | for all arguments and environments that fit: argc at $sp, then the null-terminated argv and envp vectors, whose pointers lead to intact copies above them; $sp is aligned to double words exactly if the entries of both vectors are even in number |
| RunStack.Loader.CopyString | spim-8.0/CPU/spim-utils.c:285-295 | copies the string and its terminator downwards and changes nothing else |
| RunStack.Loader.CopyStrings | spim-8.0/CPU/spim-utils.c:254-261 | each recorded address leads to an intact copy of its string |
| RunStack.Loader.PushVector | spim-8.0/CPU/spim-utils.c:268-277 | pushes a null-terminated vector in order below what is there |
| RunStack.StartFindsVectors | spim-8.0/CPU/exceptions.s:181-188 | the startup code computes sp + 4 and sp + 4 + 4 * (argc + 1) |
| RunStack.MainArguments | spim-8.0/CPU/exceptions.s:181-188 | on the stack that has been built, main gets argc and the addresses of the two vectors |
| Labels.SymbolTable.GetHash | spim-8.0/CPU/sym-tbl.c:105-134 | finds the bucket of the hash and the label with the name if the table has one |
| Labels.HashIsPolynomial | spim-8.0/CPU/sym-tbl.c:112-124 | the bucket is a polynomial of the length and the signed characters of the name in base 613, modulo 2^30 and the size of the table: wrapping at every step is wrapping once |
| Labels.SymbolTable.LookupLabel | spim-8.0/CPU/sym-tbl.c:154-177 | the same node for a known name, a fresh one for a new name, and no other name affected; buckets stay proper chains with each name once |
| Labels.SymbolTable.RecordLabel | spim-8.0/CPU/sym-tbl.c:183-210 | a second definition leaves the address alone; the table stays valid, a local label entering the list once, if and only if the label is not on the list with address 0 already; if it is, no finite chain of labels is the list any more |
| Labels.SymbolTable.MakeGlobal | spim-8.0/CPU/sym-tbl.c:214-221 | marks the label and keeps its address |
| Labels.SymbolTable.FlushLocalLabels | spim-8.0/CPU/sym-tbl.c:402-431 | the table loses exactly the labels on the local list, and the list is empty |
| Labels.SymbolTable.Remove | spim-8.0/CPU/sym-tbl.c:411-428 | unlinking a label in the middle or at the head of a chain removes that name only |
| Labels.RemovedFind | spim-8.0/CPU/sym-tbl.c:411-428 | in a chain with distinct names, removing one label changes the lookup of its own name only |
| LabelRuns.Execute | spim-8.0/CPU/sym-tbl.c:154-221 | over any commands that do not spoil the list, the chained table is the finite map from names to addresses with the list of local names |
| LabelRuns.Spoil | spim-8.0/CPU/sym-tbl.c:183-210 | a command that does spoil it leaves a list without end, so that a flush would not end either |
| LabelRuns.ZeroTwice | spim-8.0/CPU/parser.y:531-538 | defining a name as the constant 0 twice is such a run |
| LabelRuns.LocalsAreHistory | spim-8.0/CPU/sym-tbl.c:203-208 | the list holds exactly the names recorded, while neither defined nor global, since the last flush |
| LabelRuns.FlushForgets | spim-8.0/CPU/sym-tbl.c:402-431 | a flush forgets exactly those names |
| LabelRuns.FirstDefinitionStays | spim-8.0/CPU/sym-tbl.c:188-196 | an address, once given, stays until a flush forgets the name, whatever else is recorded |
| LabelRuns.EntryIsHistory | spim-8.0/CPU/sym-tbl.c:110-215 | what the table knows of a name it has not forgotten: it is there if a command has named it, it has the first address other than 0 that it was given, and it is global if it was ever made so |
| GprSim.Simulator.Dispatch | Project2/gprSim.c:64-111 | the switch and its handlers do what the instruction means and charge its cycles |
| GprSim.Simulator.AddImmediate | Project2/gprSim.c:184-194 | addi: the 32-bit sum goes to the destination, for 6 cycles |
| GprSim.Simulator.SubImmediate | Project2/gprSim.c:269-275 | subi: the 32-bit difference goes to the destination, for 6 cycles |
| GprSim.Int32Wraps | Project2/gprSim.c:184-194 | sums and differences are taken modulo 2^32 |
| GprSim.StepPrints | Project2/gprSim.c:278-303 | a turn adds at most one string, at the end of what has been printed; end stops the machine without a cycle or a count |
| GprSim.OutputGrows | Project2/gprSim.c:59-114 | what has been printed stays printed over any number of turns |
| GprSim.Simulator.BranchAlways | Project2/gprSim.c:197-203 | b: the offset is added before the PC is advanced, for 4 cycles |
| GprSim.Simulator.BranchIfZero | Project2/gprSim.c:206-214 | beqz: the offset is added exactly on zero, for 5 cycles either way |
| GprSim.Simulator.BranchIfGreaterEqual | Project2/gprSim.c:217-225 | bge: the offset is added exactly on greater or equal, for 5 cycles either way |
| GprSim.Simulator.BranchIfNotEqual | Project2/gprSim.c:228-236 | bne: the offset is added exactly on difference, for 5 cycles either way |
| GprSim.Simulator.LoadAddress | Project2/gprSim.c:239-246 | la: the data word goes to the destination, for 5 cycles; outside the data the machine faults |
| GprSim.Simulator.LoadByte | Project2/gprSim.c:249-256 | lb: the char of the input goes to the destination, for 6 cycles; outside the buffer the machine faults |
| GprSim.Simulator.LoadImmediate | Project2/gprSim.c:259-266 | li: the constant goes to the destination, for 3 cycles |
| GprSim.Simulator.RunToEnd | Project2/gprSim.c:59-114 | the loop runs the specified steps until the program halts |
| GprSim.Simulator.SystemCall | Project2/gprSim.c:278-303 | print, exit and read, by the code in register 29 |
| Palindrome.Decides | Project2/palindrome.s:26-52 | for every NUL-free input of at most 255 chars the program halts and prints strings[1] exactly when the input equals its reverse, else strings[2], in exactly 15 + 4n + 7 floor(n/2) or 18 + 4n + 7m instructions and 75 + 21n + 38 floor(n/2) or 92 + 21n + 38m cycles |
| Palindrome.Simulate | Project2/gprSim.c:40-125 | the simulator, run on the program, gives that output and those counts |
| Palindrome.HalfIsEnough | Project2/palindrome.s:36-42 | comparing the first half with the second decides equality with the reverse |
| Palindrome.MismatchDecides | Project2/palindrome.s:36-42 | there is no first mismatch exactly when the input equals its reverse |

## Left out

- Floating point, condition codes and their encodings; CLO, CLZ, traps, CP0 instructions and `handle_exception`.
- Exceptions raised in a delay slot, branches in a delay slot, and pseudo-instructions under delayed branches.
- System calls and everything else of the host: files, timers, signals; the user interface; lexing and parsing.
- Interrupts taken by the processor: the console theorems end at the pending bits of Cause, and assume that the
  program does not write Cause itself.
- Instruction fetch from data, accesses of the program to its own text, and console accesses from
  `Interpreter.Cpu`, which works on a flat byte map; `Memory.Store` is proved to refine such a map.
- Interpreter.Cpu.Step: without delayed branches, which `Interpreter.Cpu.StepWithSlot` adds; the polling of timers,
  devices and interrupts between instructions is left to the caller.
- Interpreter.Cpu.StepWithSlot: with immediate loads only, and nothing is said about a slot that traps.
- Interpreter.Cpu.RunWithSlots: the same, and no branch or jump stands in a slot.
- DelaySlots.NopsAreInvisible: programs without calls, whose return addresses differ between the two machines.
- RunStack.Loader.Initialize: works on the flat byte map that `Memory.Store` refines; what happens when the strings
  do not fit the stack or the buffer of 10000 addresses is not modelled.
- DataDirectives.Assembler.AlignData: distances of 32 and more, which C does not define, and moving the labels of
  the current line along.
- Big-endian memory, `expand_k_data` and symbols relative to `$gp`.
- Words and instructions in the data segment that refer to undefined labels.
- Symbols.DefinitionResolves: the uses by such words, which are on the same chain, are not among the lines.
- A common state of `Labels.SymbolTable` and `TextSegment.Segment`: the segment has its own map of label addresses.
- Pseudo-instructions whose address operand mentions a label: `Grammar.UlwInst` and its like take constant offsets.
- The error messages for immediate values too large for their field and for jumps out of their region; the fields
  are what the source stores all the same.
- The sizes of the tables: rows of directives and pseudo-instructions, whose code is -1, and the floating-point
  rows of COP1 and COP1X appear in `Encoding.OpcodeArray` only as rows that other rows must be told from.
- A breakpoint outside the text, which the source reports as an error after writing a word to data memory.
- Freeing memory: records and labels are fresh objects.
- Project 1, which only has straight-line interpreters; Projects 3 and 4, which are unfinished.
- Unaligned.UlwCorrect: what the code loads when its base register is its destination or an offset is misassembled;
  `Unaligned.PairAddresses` says exactly when the two accesses touch the right addresses.
- Unaligned.UswCorrect: the same for misassembled offsets.
- Unaligned.UswThenUlw: the same as for `ulw`.
- Unaligned.UlhCorrect: the same as for `ulw`, with offsets one apart.
- Unaligned.UshCorrect: what is stored where when the base register is the source, which is rotated between the two
  stores, or an offset is misassembled; `Unaligned.UshAddresses` says exactly when both stores touch the right
  addresses.
- Encoding.RoundTripExactly: floating-point formats are not encoded, so nothing is said about their rows.
- GprSim.Simulator.RunToEnd: the PC and the counters are unbounded, where the source has C ints.
- Immediates.AddressCorrect: `$gp` addressing of small data is not modelled.
