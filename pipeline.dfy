/**
 * The five-stage pipeline as a function of the machine state.
 *
 * A `Machine` holds the architectural state twice (`cur`, what the stages
 * read, and `next`, what they write), the four pipeline latches, the run
 * flag, the cycle counter and the memory. Each stage is a function from
 * machine to machine; a cycle runs WB, MEM, EX, ID and IF in that order and
 * then makes the next state current. The lemmas say what a cycle, a run and
 * each instruction class do.
 */
module Pipeline {
  import opened Words
  import opened Alu
  import opened Memory

  /** The 32 general-purpose registers. */
  type RegFile = s: seq<Word> | |s| == 32
    witness [0, 0, 0, 0, 0, 0, 0, 0, 0, 0, 0, 0, 0, 0, 0, 0, 0, 0, 0, 0, 0, 0, 0, 0, 0, 0, 0, 0, 0, 0, 0, 0]

  /** One architectural state: program counter, registers, HI and LO. */
  datatype CpuState = CpuState(pc: Word, regs: RegFile, hi: Word, lo: Word)

  /** A pipeline latch: the instruction word and the values a stage hands to the next. */
  datatype Latch = Latch(ir: Word, a: Word, b: Word, imm: Word, aluOutput: Word, lmd: Word)

  /**
   * The simulator's globals: CURRENT_STATE, NEXT_STATE, the latches IF/ID
   * (`idIf`), ID/EX (`ifEx`), EX/MEM and MEM/WB, RUN_FLAG, CYCLE_COUNT and
   * the memory.
   */
  datatype Machine = Machine(
    cur: CpuState, next: CpuState,
    idIf: Latch, ifEx: Latch, exMem: Latch, memWb: Latch,
    runFlag: bool, cycleCount: nat, mem: Image)

  // ---------------------------------------------------------------------
  // Instruction classes
  // ---------------------------------------------------------------------

  /** The instructions the stages recognise; every other word is `UNKNOWN`. */
  datatype Op =
    | SLL | SRL | SRA | SYSCALL | MFHI | MTHI | MFLO | MTLO
    | MULT | MULTU | DIV | DIVU | ADD | ADDU | SUB | SUBU | SLT
    | ADDI | ADDIU | SLTI | LUI | LB | LH | LW | SB | SH | SW
    | UNKNOWN
  {
    /** Register format: opcode 0, told apart by the function field. */
    predicate IsRegister() {
      match this
      case SLL | SRL | SRA | SYSCALL | MFHI | MTHI | MFLO | MTLO => true
      case MULT | MULTU | DIV | DIVU | ADD | ADDU | SUB | SUBU | SLT => true
      case _ => false
    }

    /** Writes its ALU result to `rt` in WB. */
    predicate IsImmediateAlu() {
      ADDI? || ADDIU? || SLTI? || LUI?
    }

    predicate IsLoad() {
      LB? || LH? || LW?
    }

    predicate IsStore() {
      SB? || SH? || SW?
    }
  }

  /** The instruction class of an opcode and function field, as the stages' switches decide it. */
  function Classify(opcode: nat, funct: nat): Op {
    if opcode == 0 then
      if funct == 0x00 then SLL
      else if funct == 0x02 then SRL
      else if funct == 0x03 then SRA
      else if funct == 0x0C then SYSCALL
      else if funct == 0x10 then MFHI
      else if funct == 0x11 then MTHI
      else if funct == 0x12 then MFLO
      else if funct == 0x13 then MTLO
      else if funct == 0x18 then MULT
      else if funct == 0x19 then MULTU
      else if funct == 0x1A then DIV
      else if funct == 0x1B then DIVU
      else if funct == 0x20 then ADD
      else if funct == 0x21 then ADDU
      else if funct == 0x22 then SUB
      else if funct == 0x23 then SUBU
      else if funct == 0x2A then SLT
      else UNKNOWN
    else if opcode == 0x08 then ADDI
    else if opcode == 0x09 then ADDIU
    else if opcode == 0x0A then SLTI
    else if opcode == 0x0F then LUI
    else if opcode == 0x20 then LB
    else if opcode == 0x21 then LH
    else if opcode == 0x23 then LW
    else if opcode == 0x28 then SB
    else if opcode == 0x29 then SH
    else if opcode == 0x2B then SW
    else UNKNOWN
  }

  function OpOf(ir: Word): Op {
    Classify(Opcode(ir), Funct(ir))
  }

  /** The opcode of each known instruction, and its function field when the opcode is 0. */
  function OpcodeOf(op: Op): (opcode: nat)
    requires op != UNKNOWN
    ensures opcode < 64
    ensures opcode == 0 <==> op.IsRegister()
  {
    match op
    case ADDI => 0x08
    case ADDIU => 0x09
    case SLTI => 0x0A
    case LUI => 0x0F
    case LB => 0x20
    case LH => 0x21
    case LW => 0x23
    case SB => 0x28
    case SH => 0x29
    case SW => 0x2B
    case SLL | SRL | SRA | SYSCALL | MFHI | MTHI | MFLO | MTLO => 0
    case MULT | MULTU | DIV | DIVU | ADD | ADDU | SUB | SUBU | SLT => 0
  }

  function FunctOf(op: Op): (funct: nat)
    requires op.IsRegister()
    ensures funct < 64
  {
    match op
    case SLL => 0x00
    case SRL => 0x02
    case SRA => 0x03
    case SYSCALL => 0x0C
    case MFHI => 0x10
    case MTHI => 0x11
    case MFLO => 0x12
    case MTLO => 0x13
    case MULT => 0x18
    case MULTU => 0x19
    case DIV => 0x1A
    case DIVU => 0x1B
    case ADD => 0x20
    case ADDU => 0x21
    case SUB => 0x22
    case SUBU => 0x23
    case SLT => 0x2A
  }

  /**
   * The classification and the codes are inverse: a known instruction's codes
   * classify as it, and codes that classify as a known instruction are its
   * codes (the function field counts only under opcode 0).
   */
  lemma ClassifyCodes(op: Op, opcode: nat, funct: nat)
    ensures op != UNKNOWN ==>
      Classify(OpcodeOf(op), if op.IsRegister() then FunctOf(op) else funct) == op
    ensures Classify(opcode, funct) != UNKNOWN ==>
      && OpcodeOf(Classify(opcode, funct)) == opcode
      && (opcode == 0 ==> FunctOf(Classify(opcode, funct)) == funct)
  {
  }

  /** A register-format word built from an instruction's codes decodes as that instruction. */
  lemma DecodeRegisterFormat(op: Op, rs: nat, rt: nat, rd: nat, sa: nat)
    requires op.IsRegister() && rs < 32 && rt < 32 && rd < 32 && sa < 32
    ensures var ir := EncodeR(0, rs, rt, rd, sa, FunctOf(op));
      OpOf(ir) == op && Rs(ir) == rs && Rt(ir) == rt && Rd(ir) == rd && Shamt(ir) == sa
  {
    DecodeEncodeR(0, rs, rt, rd, sa, FunctOf(op));
    ClassifyCodes(op, 0, 0);
  }

  /** An immediate-format word built from an instruction's opcode decodes as that instruction. */
  lemma DecodeImmediateFormat(op: Op, rs: nat, rt: nat, imm: nat)
    requires op != UNKNOWN && !op.IsRegister() && rs < 32 && rt < 32 && imm < TWO16
    ensures var ir := EncodeI(OpcodeOf(op), rs, rt, imm);
      OpOf(ir) == op && Rs(ir) == rs && Rt(ir) == rt && Imm16(ir) == imm
  {
    var ir := EncodeI(OpcodeOf(op), rs, rt, imm);
    assert ir == EncodeR(OpcodeOf(op), rs, rt, imm / 0x800, imm / 0x40 % 32, imm % 0x40);
    DecodeEncodeR(OpcodeOf(op), rs, rt, imm / 0x800, imm / 0x40 % 32, imm % 0x40);
    DivModSplit(ir, TWO16, OpcodeOf(op) * 0x400 + rs * 0x20 + rt, imm);
    ClassifyCodes(op, 0, Funct(ir));
  }

  // ---------------------------------------------------------------------
  // WB
  // ---------------------------------------------------------------------

  function SetNextReg(m: Machine, r: nat, v: Word): Machine
    requires r < 32
  {
    m.(next := m.next.(regs := m.next.regs[r := v]))
  }

  /**
   * WB: the instruction in MEM/WB writes its result into the next state's
   * registers. Only the next state's registers change, and at most one of them.
   */
  function WbSpec(m: Machine): (r: Machine)
    ensures r == m.(next := m.next.(regs := r.next.regs))
    ensures forall i, j :: 0 <= i < j < 32 ==>
              r.next.regs[i] == m.next.regs[i] || r.next.regs[j] == m.next.regs[j]
  {
    var l := m.memWb;
    var op := OpOf(l.ir);
    if op.IsRegister() && op != SYSCALL then SetNextReg(m, Rd(l.ir), l.aluOutput)
    else if op.IsImmediateAlu() then SetNextReg(m, Rt(l.ir), l.aluOutput)
    else if op.IsLoad() then SetNextReg(m, Rt(l.ir), l.lmd)
    else m
  }

  /**
   * Where WB writes: register-format results to `rd`, immediate ALU results
   * to `rt`, loaded words to `rt`; SYSCALL, the stores and unknown words
   * write nothing.
   */
  lemma WritebackDestination(m: Machine)
    ensures var l, op := m.memWb, OpOf(m.memWb.ir);
      && (op.IsRegister() && op != SYSCALL ==> WbSpec(m).next.regs == m.next.regs[Rd(l.ir) := l.aluOutput])
      && (op.IsImmediateAlu() ==> WbSpec(m).next.regs == m.next.regs[Rt(l.ir) := l.aluOutput])
      && (op.IsLoad() ==> WbSpec(m).next.regs == m.next.regs[Rt(l.ir) := l.lmd])
      && (op == SYSCALL || op.IsStore() || op == UNKNOWN ==> WbSpec(m) == m)
  {
  }

  // ---------------------------------------------------------------------
  // MEM
  // ---------------------------------------------------------------------

  /** What MEM does to memory and what it hands on as LMD. */
  datatype Access = Access(lmd: Word, mem: Image)

  /**
   * The memory access of one instruction at address `addr`: loads read the
   * word there and extend its low byte (LB) or half (LH); SB and SH merge
   * into the word there; SW stores `b`. Nothing else touches memory.
   */
  function MemAccess(op: Op, addr: Word, b: Word, mem: Image): (r: Access)
    ensures !op.IsStore() ==> r.mem == mem
    ensures r.mem.layout == mem.layout
  {
    match op
    case LB => Access(SignExtend8(ReadWord(mem, addr)), mem)
    case LH => Access(SignExtend16(ReadWord(mem, addr)), mem)
    case LW => Access(ReadWord(mem, addr), mem)
    case SB => Access(0, WriteWord(mem, addr, MergeByte(ReadWord(mem, addr), b)))
    case SH => Access(0, WriteWord(mem, addr, MergeHalf(ReadWord(mem, addr), b)))
    case SW => Access(0, WriteWord(mem, addr, b))
    case _ => Access(0, mem)
  }

  /**
   * MEM: the instruction in EX/MEM accesses memory at its ALU result; MEM/WB
   * receives its word, its ALU result and the loaded value. Only memory and
   * MEM/WB change.
   */
  function MemSpec(m: Machine): (r: Machine)
    ensures r == m.(mem := r.mem, memWb := r.memWb)
    ensures r.memWb == m.memWb.(ir := m.exMem.ir, aluOutput := m.exMem.aluOutput, lmd := r.memWb.lmd)
    ensures !OpOf(m.exMem.ir).IsStore() ==> r.mem == m.mem
  {
    var l := m.exMem;
    var acc := MemAccess(OpOf(l.ir), l.aluOutput, l.b, m.mem);
    m.(mem := acc.mem, memWb := m.memWb.(ir := l.ir, aluOutput := l.aluOutput, lmd := acc.lmd))
  }

  /** SW then a word read at the same mapped address gives the stored word back. */
  lemma StoreWordReadsBack(m: Machine)
    requires OpOf(m.exMem.ir) == SW && Mapped(m.mem, m.exMem.aluOutput)
    ensures ReadWord(MemSpec(m).mem, m.exMem.aluOutput) == m.exMem.b
  {
    ReadAfterWrite(m.mem, m.exMem.aluOutput, m.exMem.b);
  }

  /**
   * SB at a mapped address replaces the low byte of the word there with the
   * low byte of `b` and keeps its upper three bytes; MEM's access for an LB
   * there afterwards loads `b`'s low byte, sign-extended.
   */
  lemma StoreByteReadsBack(m: Machine)
    requires OpOf(m.exMem.ir) == SB && Mapped(m.mem, m.exMem.aluOutput)
    ensures var addr := m.exMem.aluOutput;
      var w := ReadWord(MemSpec(m).mem, addr);
      && w % 0x100 == m.exMem.b % 0x100
      && w / 0x100 == ReadWord(m.mem, addr) / 0x100
      && MemAccess(LB, addr, 0, MemSpec(m).mem).lmd == SignExtend8(m.exMem.b)
  {
    var addr := m.exMem.aluOutput;
    var merged := MergeByte(ReadWord(m.mem, addr), m.exMem.b);
    ReadAfterWrite(m.mem, addr, merged);
  }

  /**
   * SH at a mapped address replaces the low half of the word there with the
   * low half of `b` and keeps its upper half; MEM's access for an LH there
   * afterwards loads `b`'s low half, sign-extended.
   */
  lemma StoreHalfReadsBack(m: Machine)
    requires OpOf(m.exMem.ir) == SH && Mapped(m.mem, m.exMem.aluOutput)
    ensures var addr := m.exMem.aluOutput;
      var w := ReadWord(MemSpec(m).mem, addr);
      && w % TWO16 == m.exMem.b % TWO16
      && w / TWO16 == ReadWord(m.mem, addr) / TWO16
      && MemAccess(LH, addr, 0, MemSpec(m).mem).lmd == SignExtend16(m.exMem.b)
  {
    var addr := m.exMem.aluOutput;
    var merged := MergeHalf(ReadWord(m.mem, addr), m.exMem.b);
    ReadAfterWrite(m.mem, addr, merged);
  }

  // ---------------------------------------------------------------------
  // EX
  // ---------------------------------------------------------------------

  /**
   * What EX makes of one instruction: the ALU output it latches, the next
   * state after its direct writes (HI, LO, and MFHI/MFLO's register), and
   * whether it stops the simulation.
   */
  datatype Effect = Effect(output: Word, next: CpuState, halt: bool)

  function SetHiLo(next: CpuState, p: HiLo): Effect {
    Effect(0, next.(hi := p.hi, lo := p.lo), false)
  }

  /**
   * EX on the ID/EX latch `l`, reading the current state `cur` and writing
   * into the next state `next`.
   */
  function Execute(l: Latch, cur: CpuState, next: CpuState): (e: Effect)
    ensures e.next.pc == next.pc
    ensures e.halt ==> OpOf(l.ir) == SYSCALL
  {
    var ir, a, b, imm := l.ir, l.a, l.b, l.imm;
    var sa, rs, rt, rd := Shamt(ir), Rs(ir), Rt(ir), Rd(ir);
    match OpOf(ir)
    case SLL => Effect(ShiftLeft(b, sa), next, false)
    case SRL => Effect(ShiftRightLogical(b, sa), next, false)
    case SRA => Effect(ShiftRightArith(b, sa), next, false)
    case SYSCALL => Effect(0, next, cur.regs[2] == 10)
    case MFHI => Effect(cur.hi, next.(regs := next.regs[rd := cur.hi]), false)
    case MTHI => Effect(0, next.(hi := cur.regs[rs]), false)
    case MFLO => Effect(cur.lo, next.(regs := next.regs[rd := cur.lo]), false)
    case MTLO => Effect(0, next.(lo := cur.regs[rs]), false)
    case MULT => SetHiLo(next, Mult(a, b))
    case MULTU => SetHiLo(next, MultU(a, b))
    case DIV =>
      (match DivGuarded(a, b)
       case None => Effect(0, next, false)
       case Some(p) => SetHiLo(next, p))
    case DIVU =>
      if cur.regs[rt] == 0 then Effect(0, next, false)
      else SetHiLo(next, DivU(cur.regs[rs], cur.regs[rt]))
    case ADD => Effect(Add(a, b), next, false)
    case ADDU => Effect(Add(a, b), next, false)
    case SUB => Effect(Sub(a, b), next, false)
    case SUBU => Effect(Sub(a, b), next, false)
    case SLT => Effect(SetLessThan(a, b), next, false)
    case ADDI => Effect(Add(a, imm), next, false)
    case ADDIU => Effect(Add(a, imm), next, false)
    case SLTI => Effect(SetLessThan(a, SignExtend16(imm)), next, false)
    case LUI => Effect(ShiftLeft(imm, 16), next, false)
    case LB | LH | LW | SB | SH | SW => Effect(Add(a, imm), next, false)
    case UNKNOWN => Effect(0, next, false)
  }

  /**
   * MFHI and MFLO write HI or LO into `rd` of the next state and hand the same
   * value on as the ALU output, so that WB writes it again. The instructions
   * that only set HI or LO (MTHI, MTLO, MULT, MULTU, DIV, DIVU) hand on 0.
   */
  lemma ExecuteMoves(l: Latch, cur: CpuState, next: CpuState)
    ensures var e := Execute(l, cur, next);
      && (OpOf(l.ir) == MFHI ==> e.output == cur.hi && e.next == next.(regs := next.regs[Rd(l.ir) := cur.hi]))
      && (OpOf(l.ir) == MFLO ==> e.output == cur.lo && e.next == next.(regs := next.regs[Rd(l.ir) := cur.lo]))
      && (OpOf(l.ir) in {MTHI, MTLO, MULT, MULTU, DIV, DIVU} ==> e.output == 0)
  {
  }

  /**
   * MFHI and MFLO in EX as written: HI (or LO) goes straight into `rd` of the
   * next state, but `output` is never set, so EX/MEM receives whatever the
   * uninitialised variable holds, here `junk`.
   */
  function MoveFromAsWritten(l: Latch, cur: CpuState, next: CpuState, junk: Word): Effect
    requires OpOf(l.ir) == MFHI || OpOf(l.ir) == MFLO
  {
    var v := if OpOf(l.ir) == MFHI then cur.hi else cur.lo;
    Effect(junk, next.(regs := next.regs[Rd(l.ir) := v]), false)
  }

  /**
   * The input that shows it: an MFHI or MFLO whose EX left `junk` other than
   * the moved value in `output`. When it reaches WB, `rd` is overwritten with
   * `junk`; with the output `Execute` hands on, WB writes the moved value.
   */
  lemma MoveFromAsWrittenLosesValue(l: Latch, cur: CpuState, next: CpuState, junk: Word, m: Machine)
    requires OpOf(l.ir) == MFHI || OpOf(l.ir) == MFLO
    requires junk != (if OpOf(l.ir) == MFHI then cur.hi else cur.lo)
    requires m.memWb.ir == l.ir
    ensures var asWritten := m.(memWb := m.memWb.(aluOutput := MoveFromAsWritten(l, cur, next, junk).output));
      WbSpec(asWritten).next.regs[Rd(l.ir)] == junk
    ensures var intended := m.(memWb := m.memWb.(aluOutput := Execute(l, cur, next).output));
      WbSpec(intended).next.regs[Rd(l.ir)] == if OpOf(l.ir) == MFHI then cur.hi else cur.lo
  {
  }

  /**
   * EX: the instruction in ID/EX is executed; EX/MEM receives its word, its
   * `b` operand and the ALU output. Only the next state, the run flag and
   * EX/MEM change, the next PC never.
   */
  function ExSpec(m: Machine): (r: Machine)
    ensures r == m.(next := r.next, runFlag := r.runFlag, exMem := r.exMem)
    ensures r.next.pc == m.next.pc
    ensures r.exMem == m.exMem.(ir := m.ifEx.ir, b := m.ifEx.b, aluOutput := r.exMem.aluOutput)
  {
    var l := m.ifEx;
    var e := Execute(l, m.cur, m.next);
    m.(next := e.next,
       runFlag := if e.halt then false else m.runFlag,
       exMem := m.exMem.(ir := l.ir, b := l.b, aluOutput := e.output))
  }

  /** EX clears the run flag exactly for a SYSCALL while register 2 holds 10. */
  lemma ExHaltsIff(m: Machine)
    ensures ExSpec(m).runFlag <==> m.runFlag && !(OpOf(m.ifEx.ir) == SYSCALL && m.cur.regs[2] == 10)
  {
  }

  /**
   * DIV with a zero `b` operand leaves HI and LO as they were; with a
   * non-zero one, LO and HI are the truncated quotient and the remainder of
   * `a` by `b` as signed words, and nothing else in the next state changes.
   */
  lemma ExDivide(m: Machine)
    requires OpOf(m.ifEx.ir) == DIV
    ensures var l, r := m.ifEx, ExSpec(m).next;
      && (l.b == 0 ==> r == m.next)
      && (l.b != 0 ==> IsTruncatedDivision(l.a, l.b, HiLo(r.hi, r.lo)) && r == m.next.(hi := r.hi, lo := r.lo))
  {
  }

  /**
   * DIVU with a zero divisor register leaves HI and LO as they were;
   * otherwise LO and HI are the quotient and remainder of `rs` by `rt`, and
   * nothing else in the next state changes.
   */
  lemma ExDivideUnsigned(m: Machine)
    requires OpOf(m.ifEx.ir) == DIVU
    ensures var ir, r := m.ifEx.ir, ExSpec(m).next;
      var x, y := m.cur.regs[Rs(ir)], m.cur.regs[Rt(ir)];
      && (y == 0 ==> r == m.next)
      && (y != 0 ==> r.lo * y + r.hi == x && r.hi < y && r == m.next.(hi := r.hi, lo := r.lo))
  {
  }

  /**
   * MULT leaves in HI:LO the signed product of `a` and `b` as a signed 64-bit
   * value; MULTU the unsigned product. Nothing else in the next state changes.
   */
  lemma ExMultiply(m: Machine)
    requires OpOf(m.ifEx.ir) == MULT || OpOf(m.ifEx.ir) == MULTU
    ensures var l, r := m.ifEx, ExSpec(m).next;
      && (OpOf(l.ir) == MULT ==> Signed64(Join(HiLo(r.hi, r.lo))) == Signed(l.a) * Signed(l.b))
      && (OpOf(l.ir) == MULTU ==> Join(HiLo(r.hi, r.lo)) == l.a * l.b)
      && r == m.next.(hi := r.hi, lo := r.lo)
  {
    MultIsSignedProduct(m.ifEx.a, m.ifEx.b);
    MultUIsProduct(m.ifEx.a, m.ifEx.b);
  }

  // ---------------------------------------------------------------------
  // ID and IF
  // ---------------------------------------------------------------------

  /**
   * ID: the word in IF/ID is decoded; ID/EX receives it, the current values
   * of its `rs` and `rt` registers, and its sign-extended immediate. Only
   * ID/EX changes.
   */
  function IdSpec(m: Machine): (r: Machine)
    ensures r == m.(ifEx := r.ifEx)
    ensures r.ifEx.ir == m.idIf.ir
    ensures r.ifEx.a == m.cur.regs[Rs(m.idIf.ir)] && r.ifEx.b == m.cur.regs[Rt(m.idIf.ir)]
    ensures var f := Imm16(m.idIf.ir); Signed(r.ifEx.imm) == if f < 0x8000 then f else f - TWO16
  {
    var ir := m.idIf.ir;
    m.(ifEx := m.ifEx.(ir := ir, a := m.cur.regs[Rs(ir)], b := m.cur.regs[Rt(ir)], imm := SignExtend16(ir)))
  }

  /** ID's immediate as written: the extension is applied to another variable, so the field stays unextended. */
  function ImmediateAsWritten(ir: Word): Word {
    Imm16(ir)
  }

  /**
   * The input that shows it: ADDI with immediate 0xFFFF (meaning -1) adds
   * 65535 to the register as written, and subtracts 1 as intended.
   */
  lemma AddiImmediateAsWritten()
    ensures var ir := EncodeI(0x08, 1, 2, 0xFFFF);
      && OpOf(ir) == ADDI
      && Add(5, ImmediateAsWritten(ir)) == 0x1_0004
      && Add(5, SignExtend16(ir)) == 4
  {
    DecodeImmediateFormat(ADDI, 1, 2, 0xFFFF);
  }

  /**
   * IF: the word at the current PC is fetched into IF/ID and the next PC is
   * the current one plus 4. Only IF/ID and the next PC change.
   */
  function IfSpec(m: Machine): (r: Machine)
    ensures r == m.(idIf := r.idIf, next := m.next.(pc := r.next.pc))
    ensures r.idIf == m.idIf.(ir := ReadWord(m.mem, m.cur.pc))
    ensures r.next.pc == Wrap(m.cur.pc + 4)
  {
    m.(idIf := m.idIf.(ir := ReadWord(m.mem, m.cur.pc)), next := m.next.(pc := Add(m.cur.pc, 4)))
  }

  // ---------------------------------------------------------------------
  // Cycles and runs
  // ---------------------------------------------------------------------

  /** The stages of one cycle, each seeing what the stages before it in the cycle left. */
  function PipelineSpec(m: Machine): Machine {
    IfSpec(IdSpec(ExSpec(MemSpec(WbSpec(m)))))
  }

  /**
   * One cycle: the pipeline, then the next state becomes the current one and
   * the cycle counter goes up by one. The PC advances by 4, modulo 2^32.
   */
  function CycleSpec(m: Machine): (r: Machine)
    ensures r.cur == r.next
    ensures r.cycleCount == m.cycleCount + 1
    ensures r.cur.pc == Wrap(m.cur.pc + 4)
    ensures r.mem.layout == m.mem.layout
  {
    var p := PipelineSpec(m);
    p.(cur := p.next, cycleCount := p.cycleCount + 1)
  }

  /**
   * Proof glue for the simulator's `Cycle`: unfolds `CycleSpec` for a pipeline
   * result `p` already at hand. It states nothing beyond `CycleSpec`'s body.
   */
  lemma CycleOfPipeline(m: Machine, p: Machine)
    requires p == PipelineSpec(m)
    ensures CycleSpec(m) == p.(cur := p.next, cycleCount := p.cycleCount + 1)
  {
  }

  /**
   * The latches move one stage per cycle, each carrying what its stage made
   * of the one before: IF/ID the word at the PC in memory as MEM of this cycle
   * left it; ID/EX the word from IF/ID with its `rs` and `rt` register values;
   * EX/MEM the word from ID/EX, its `b` operand and its ALU output; MEM/WB the
   * word from EX/MEM, its ALU output and the value its access loaded.
   */
  lemma LatchesShift(m: Machine)
    ensures var r, w := CycleSpec(m), MemSpec(WbSpec(m));
      && r.idIf.ir == ReadWord(w.mem, m.cur.pc)
      && r.ifEx.ir == m.idIf.ir
      && r.ifEx.a == m.cur.regs[Rs(m.idIf.ir)] && r.ifEx.b == m.cur.regs[Rt(m.idIf.ir)]
      && r.exMem.ir == m.ifEx.ir && r.exMem.b == m.ifEx.b
      && r.exMem.aluOutput == Execute(m.ifEx, m.cur, w.next).output
      && r.memWb.ir == m.exMem.ir && r.memWb.aluOutput == m.exMem.aluOutput
      && r.memWb.lmd == MemAccess(OpOf(m.exMem.ir), m.exMem.aluOutput, m.exMem.b, m.mem).lmd
  {
  }

  /** The register an ALU result is written back to: `rd` for register format, `rt` otherwise. */
  function ResultRegister(ir: Word): (r: nat)
    ensures r < 32
  {
    if OpOf(ir).IsRegister() then Rd(ir) else Rt(ir)
  }

  /** Writes its ALU output back to a register in WB. */
  predicate WritesAluResult(ir: Word) {
    var op := OpOf(ir);
    (op.IsRegister() && op != SYSCALL) || op.IsImmediateAlu()
  }

  /**
   * After a cycle, the destination register of the instruction that was in
   * MEM/WB holds its ALU output, unless an MFHI or MFLO in EX of the same
   * cycle wrote that register after WB did.
   */
  lemma CycleWritesBack(m: Machine)
    requires WritesAluResult(m.memWb.ir)
    requires !((OpOf(m.ifEx.ir) == MFHI || OpOf(m.ifEx.ir) == MFLO) && Rd(m.ifEx.ir) == ResultRegister(m.memWb.ir))
    ensures CycleSpec(m).cur.regs[ResultRegister(m.memWb.ir)] == m.memWb.aluOutput
  {
    var w := WbSpec(m);
    WritebackDestination(m);
    assert w.next.regs[ResultRegister(m.memWb.ir)] == m.memWb.aluOutput;
  }

  /**
   * The ALU output of an instruction executed in EX is in its destination
   * register once the third cycle from then is over: EX/MEM takes it, MEM/WB
   * takes it over, and WB writes it (unless an MFHI or MFLO then in EX writes
   * the same register).
   */
  lemma ResultReachesRegister(m: Machine)
    requires WritesAluResult(m.ifEx.ir)
    requires var e := CycleSpec(CycleSpec(m)).ifEx.ir;
      !((OpOf(e) == MFHI || OpOf(e) == MFLO) && Rd(e) == ResultRegister(m.ifEx.ir))
    ensures CycleSpec(CycleSpec(CycleSpec(m))).cur.regs[ResultRegister(m.ifEx.ir)]
            == Execute(m.ifEx, m.cur, MemSpec(WbSpec(m)).next).output
  {
    var c1 := CycleSpec(m);
    var c2 := CycleSpec(c1);
    LatchesShift(m);
    LatchesShift(c1);
    CycleWritesBack(c2);
  }

  /** The run flag after a cycle: cleared exactly by a SYSCALL in EX while register 2 holds 10. */
  lemma CycleHaltsIff(m: Machine)
    ensures CycleSpec(m).runFlag <==> m.runFlag && !(OpOf(m.ifEx.ir) == SYSCALL && m.cur.regs[2] == 10)
  {
    var w := MemSpec(WbSpec(m));
    assert w.runFlag == m.runFlag && w.cur == m.cur && w.ifEx == m.ifEx;
    ExHaltsIff(w);
  }

  // The run loops are stated over a step function: the facts about them need
  // only that a step adds one to the cycle counter, so they are proved here
  // once, for any such step, and then applied to `CycleSpec`.

  /** `n` steps in a row. */
  function Iterate(step: Machine -> Machine, m: Machine, n: nat): Machine {
    if n == 0 then m else step(Iterate(step, m, n - 1))
  }

  /** The loop of run and runAll: at most `k` steps, each taken only while the flag is up. */
  function Loop(step: Machine -> Machine, m: Machine, k: nat): Machine
    decreases k
  {
    if k == 0 || !m.runFlag then m else Loop(step, step(m), k - 1)
  }

  /**
   * run(n) and runAll: nothing while the flag is down; otherwise up to `n`
   * steps, stopping once the flag drops. runAll has no bound; here it gets
   * one, `n`, as a fuel.
   */
  function RunCycles(step: Machine -> Machine, m: Machine, n: int): Machine {
    if !m.runFlag then m else Loop(step, m, if n < 0 then 0 else n)
  }

  /** While the flag is up and steps remain, the loop takes one step and goes on. */
  lemma LoopUnfold(step: Machine -> Machine, m: Machine, k: nat)
    requires k > 0 && m.runFlag
    ensures Loop(step, m, k) == Loop(step, step(m), k - 1)
  {
  }

  /**
   * `step` agrees with `CycleSpec` on every machine. The agreement is used
   * only where a cycle has been named, so that reasoning about a run does not
   * expand the cycle.
   */
  ghost predicate IsCycleStep(step: Machine -> Machine) {
    forall m {:trigger CycleSpec(m)} :: step(m) == CycleSpec(m)
  }

  lemma CycleSpecIsCycleStep()
    ensures IsCycleStep(CycleSpec)
  {
  }

  /** A loop over a step that agrees with `CycleSpec` is the loop over `CycleSpec`. */
  lemma {:induction false} LoopAgrees(step: Machine -> Machine, m: Machine, k: nat)
    requires IsCycleStep(step)
    ensures Loop(step, m, k) == Loop(CycleSpec, m, k)
    decreases k
  {
    if k > 0 && m.runFlag {
      assert step(m) == CycleSpec(m);
      LoopAgrees(step, step(m), k - 1);
    }
  }

  /** `n + 1` steps are one step and then `n`. */
  lemma {:induction false} IterateShift(step: Machine -> Machine, m: Machine, n: nat)
    ensures Iterate(step, m, n + 1) == Iterate(step, step(m), n)
  {
    if n > 0 {
      IterateShift(step, m, n - 1);
    }
  }

  /** Each step adds one to the cycle counter, so `n` steps add `n`. */
  lemma {:induction false} IterateCounts(step: Machine -> Machine, m: Machine, n: nat)
    requires forall x :: step(x).cycleCount == x.cycleCount + 1
    ensures Iterate(step, m, n).cycleCount == m.cycleCount + n
  {
    if n > 0 {
      IterateCounts(step, m, n - 1);
    }
  }

  /** Each step adds 4 to the PC, so `n` steps add `4 * n`, modulo 2^32. */
  lemma {:induction false} IterateAdvancesPc(step: Machine -> Machine, m: Machine, n: nat)
    requires forall x :: step(x).cur.pc == Wrap(x.cur.pc + 4)
    ensures Iterate(step, m, n).cur.pc == Wrap(m.cur.pc + 4 * n)
  {
    if n > 0 {
      IterateAdvancesPc(step, m, n - 1);
      var p := m.cur.pc + 4 * (n - 1);
      assert Iterate(step, m, n).cur.pc == Wrap(Wrap(p) + 4);
      ModAddMultiple(p + 4, -(p / TWO32), TWO32);
    }
  }

  lemma {:induction false} LoopStops(step: Machine -> Machine, m: Machine, k: nat)
    requires forall x :: step(x).cycleCount == x.cycleCount + 1
    ensures var r := Loop(step, m, k);
      var c := r.cycleCount - m.cycleCount;
      && 0 <= c <= k
      && r == Iterate(step, m, c)
      && (forall j :: 0 <= j < c ==> Iterate(step, m, j).runFlag)
      && (c < k ==> !r.runFlag)
    decreases k
  {
    if k > 0 && m.runFlag {
      var m1 := step(m);
      LoopStops(step, m1, k - 1);
      var c1 := Loop(step, m1, k - 1).cycleCount - m1.cycleCount;
      IterateShift(step, m, c1);
      forall j | 0 <= j < c1 + 1
        ensures Iterate(step, m, j).runFlag
      {
        if j > 0 {
          IterateShift(step, m, j - 1);
        }
      }
    }
  }

  /**
   * A run of `n` is `c` steps, for the `c` its cycle counter went up by: none
   * when the flag is down, at most `n`, each begun with the flag up, and
   * fewer than `n` only when the flag came down.
   */
  lemma RunCyclesStops(step: Machine -> Machine, m: Machine, n: int)
    requires forall x :: step(x).cycleCount == x.cycleCount + 1
    ensures !m.runFlag ==> RunCycles(step, m, n) == m
    ensures var r := RunCycles(step, m, n);
      var c := r.cycleCount - m.cycleCount;
      && 0 <= c && c <= (if n < 0 then 0 else n)
      && r == Iterate(step, m, c)
      && (forall j :: 0 <= j < c ==> Iterate(step, m, j).runFlag)
      && (c < n ==> !r.runFlag)
  {
    LoopStops(step, m, if n < 0 then 0 else n);
  }

  lemma {:induction false} LoopAdds(step: Machine -> Machine, m: Machine, j: nat, k: nat)
    ensures Loop(step, Loop(step, m, j), k) == Loop(step, m, j + k)
    decreases j
  {
    if j > 0 && m.runFlag {
      LoopAdds(step, step(m), j - 1, k);
    }
  }

  /** A run of `j` and then one of `k` is one run of `j + k`, for counts that are not negative. */
  lemma RunCyclesAdd(step: Machine -> Machine, m: Machine, j: nat, k: nat)
    ensures RunCycles(step, RunCycles(step, m, j), k) == RunCycles(step, m, j + k)
  {
    LoopAdds(step, m, j, k);
  }

  /** Every cycle adds one to the counter and 4 to the PC. */
  lemma CycleAdvances()
    ensures forall x :: CycleSpec(x).cycleCount == x.cycleCount + 1
    ensures forall x :: CycleSpec(x).cur.pc == Wrap(x.cur.pc + 4)
  {
  }

  /** After `n` cycles the cycle counter has gone up by `n` and the PC by `4 * n`, modulo 2^32. */
  lemma StepsAdvance(m: Machine, n: nat)
    ensures Iterate(CycleSpec, m, n).cycleCount == m.cycleCount + n
    ensures Iterate(CycleSpec, m, n).cur.pc == Wrap(m.cur.pc + 4 * n)
  {
    CycleAdvances();
    IterateCounts(CycleSpec, m, n);
    IterateAdvancesPc(CycleSpec, m, n);
  }

  /**
   * run(n) on the simulator: with the flag down nothing happens; otherwise at
   * most `n` cycles run, each begun with the flag up, and fewer than `n` only
   * when a SYSCALL brought the flag down.
   */
  lemma RunStops(m: Machine, n: int)
    ensures !m.runFlag ==> RunCycles(CycleSpec, m, n) == m
    ensures var r := RunCycles(CycleSpec, m, n);
      var c := r.cycleCount - m.cycleCount;
      && 0 <= c && c <= (if n < 0 then 0 else n)
      && r == Iterate(CycleSpec, m, c)
      && (forall j :: 0 <= j < c ==> Iterate(CycleSpec, m, j).runFlag)
      && (c < n ==> !r.runFlag)
  {
    CycleAdvances();
    RunCyclesStops(CycleSpec, m, n);
  }

  /**
   * A word fetched in one cycle is in MEM/WB three cycles later, where WB of
   * the fourth cycle after the fetch acts on it: the word read from
   * `pc + 4 * n` in cycle `n + 1` is written back in cycle `n + 5`.
   */
  lemma FetchReachesWriteback(m: Machine, n: nat)
    ensures Iterate(CycleSpec, m, n + 4).memWb.ir == Iterate(CycleSpec, m, n + 1).idIf.ir
    ensures Iterate(CycleSpec, m, n + 1).idIf.ir
            == ReadWord(MemSpec(WbSpec(Iterate(CycleSpec, m, n))).mem, Wrap(m.cur.pc + 4 * n))
  {
    StepsAdvance(m, n);
    LatchesShift(Iterate(CycleSpec, m, n));
    LatchesShift(Iterate(CycleSpec, m, n + 1));
    LatchesShift(Iterate(CycleSpec, m, n + 2));
    LatchesShift(Iterate(CycleSpec, m, n + 3));
  }

  /**
   * SW followed directly by LW of the same mapped address: the load sees the
   * stored word one cycle later.
   */
  lemma StoreWordThenLoadWord(m: Machine)
    requires OpOf(m.exMem.ir) == SW && Mapped(m.mem, m.exMem.aluOutput)
    requires OpOf(m.ifEx.ir) == LW && Add(m.ifEx.a, m.ifEx.imm) == m.exMem.aluOutput
    ensures CycleSpec(CycleSpec(m)).memWb.lmd == m.exMem.b
  {
    var w := WbSpec(m);
    StoreWordReadsBack(w);
    var c1 := CycleSpec(m);
    assert c1.mem == MemSpec(w).mem;
    assert c1.exMem.ir == m.ifEx.ir && c1.exMem.aluOutput == m.exMem.aluOutput;
  }

  // ---------------------------------------------------------------------
  // Reset and start-up
  // ---------------------------------------------------------------------

  /** All-zero registers. */
  const ZeroRegs: RegFile := [0, 0, 0, 0, 0, 0, 0, 0, 0, 0, 0, 0, 0, 0, 0, 0, 0, 0, 0, 0, 0, 0, 0, 0, 0, 0, 0, 0, 0, 0, 0, 0]

  const EmptyLatch := Latch(0, 0, 0, 0, 0, 0)

  /**
   * The register part of reset: registers, HI and LO cleared, the PC at the
   * text segment, the next state a copy of the current one, the flag up.
   * Latches, counter and memory are left as they are.
   */
  function ResetSpec(m: Machine, textBegin: Word): (r: Machine)
    ensures r.cur == r.next && r.runFlag
    ensures r.cur.pc == textBegin && r.cur.hi == 0 && r.cur.lo == 0
    ensures forall i :: 0 <= i < 32 ==> r.cur.regs[i] == 0
    ensures r == m.(cur := r.cur, next := r.next, runFlag := true)
  {
    var s := CpuState(textBegin, ZeroRegs, 0, 0);
    m.(cur := s, next := s, runFlag := true)
  }

  /**
   * The simulator at start-up over the memory `mem`: all globals zero, the PC
   * at the text segment and the flag up. (`initialize` zero-fills the
   * regions; the simulator's constructor does that.)
   */
  function Initial(mem: Image, textBegin: Word): (r: Machine)
    ensures r.runFlag && r.cycleCount == 0 && r.cur == r.next && r.cur.pc == textBegin
    ensures r.cur.hi == 0 && r.cur.lo == 0 && forall i :: 0 <= i < 32 ==> r.cur.regs[i] == 0
    ensures r.idIf == r.ifEx == r.exMem == r.memWb == Latch(0, 0, 0, 0, 0, 0)
    ensures r.mem == mem
  {
    var s := CpuState(textBegin, ZeroRegs, 0, 0);
    Machine(s, s, EmptyLatch, EmptyLatch, EmptyLatch, EmptyLatch, true, 0, mem)
  }
}
