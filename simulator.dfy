/**
 * The simulator as the program holds it: the current and next architectural
 * states with their register arrays, the four pipeline latches, the run
 * flag, the cycle counter and the region table, updated in place by the
 * stage methods. Each method is proved to do to `Model()` what the
 * corresponding function of `Pipeline` says.
 */
module Simulator {
  import opened Words
  import opened Alu
  import opened Memory
  import opened Pipeline

  /** The register part of a state assignment such as `CURRENT_STATE = NEXT_STATE`. */
  method CopyRegisters(from: array<Word>, to: array<Word>)
    requires from.Length == to.Length && from != to
    modifies to
    ensures to[..] == from[..]
  {
    forall i | 0 <= i < to.Length {
      to[i] := from[i];
    }
  }

  /**
   * The switch of MEM: LB, LH and LW read the word at `addr` and extend its
   * low byte, its low half or nothing; SB and SH merge `b`'s low byte or half
   * into the word there; SW stores `b`. The loaded value is returned.
   */
  method AccessMemory(memory: RegionTable, op: Op, addr: Word, b: Word) returns (lmd: Word)
    requires memory.Valid()
    modifies memory.Arrays()
    ensures var access := MemAccess(op, addr, b, old(memory.Snapshot()));
      lmd == access.lmd && memory.Snapshot() == access.mem
  {
    lmd := 0;
    match op {
      case LB =>
        var data := memory.Read32(addr);
        lmd := SignExtend8(data);
      case LH =>
        var data := memory.Read32(addr);
        lmd := SignExtend16(data);
      case LW =>
        lmd := memory.Read32(addr);
      case SB =>
        var data := memory.Read32(addr);
        memory.Write32(addr, MergeByte(data, b));
      case SH =>
        var data := memory.Read32(addr);
        memory.Write32(addr, MergeHalf(data, b));
      case SW =>
        memory.Write32(addr, b);
      case _ =>
    }
  }

  class Simulator {
    // CURRENT_STATE
    var curPc: Word
    const curRegs: array<Word>
    var curHi: Word
    var curLo: Word
    // NEXT_STATE
    var nextPc: Word
    const nextRegs: array<Word>
    var nextHi: Word
    var nextLo: Word
    // the latches IF/ID, ID/EX, EX/MEM and MEM/WB
    var idIf: Latch
    var ifEx: Latch
    var exMem: Latch
    var memWb: Latch
    var runFlag: bool
    var cycleCount: nat
    const memory: RegionTable
    /** MEM_TEXT_BEGIN, where the program starts. */
    const textBegin: Word

    /** Two register files of 32 words that are not the same array, and a well-formed region table. */
    predicate Valid() {
      curRegs.Length == 32 && nextRegs.Length == 32 && curRegs != nextRegs && memory.Valid()
    }

    /** The whole simulator state as a value. */
    function Model(): Machine
      requires Valid()
      reads this, curRegs, nextRegs, memory.Arrays()
    {
      Machine(
        CpuState(curPc, curRegs[..], curHi, curLo),
        CpuState(nextPc, nextRegs[..], nextHi, nextLo),
        idIf, ifEx, exMem, memWb, runFlag, cycleCount, memory.Snapshot())
    }

    /** initialize: zero-filled regions, zero registers and latches, the PC at the text segment, the flag up. */
    constructor (layout: seq<Bounds>, textBegin: Word)
      requires forall i :: 0 <= i < |layout| ==> layout[i].begin <= layout[i].end
      ensures Valid()
      ensures fresh(curRegs) && fresh(nextRegs) && fresh(memory.Arrays())
      ensures this.textBegin == textBegin && Model().mem.layout == layout
      ensures forall i, k :: 0 <= i < |layout| && 0 <= k < |Model().mem.cells[i]| ==> Model().mem.cells[i][k] == 0
      ensures Model() == Initial(Model().mem, textBegin)
    {
      memory := new RegionTable(layout);
      curRegs := new Word[32](_ => 0);
      nextRegs := new Word[32](_ => 0);
      this.textBegin := textBegin;
      curPc, curHi, curLo := textBegin, 0, 0;
      nextPc, nextHi, nextLo := textBegin, 0, 0;
      idIf, ifEx, exMem, memWb := EmptyLatch, EmptyLatch, EmptyLatch, EmptyLatch;
      runFlag := true;
      cycleCount := 0;
      new;
      assert curRegs[..] == ZeroRegs && nextRegs[..] == ZeroRegs;
    }

    /** WB: the result in MEM/WB goes into the next state's register file. */
    method WB()
      requires Valid()
      modifies nextRegs
      ensures Model() == WbSpec(old(Model()))
    {
      var ir := memWb.ir;
      var op := OpOf(ir);
      if op.IsRegister() && op != SYSCALL {
        nextRegs[Rd(ir)] := memWb.aluOutput;
      } else if op.IsImmediateAlu() {
        nextRegs[Rt(ir)] := memWb.aluOutput;
      } else if op.IsLoad() {
        nextRegs[Rt(ir)] := memWb.lmd;
      }
    }

    /** MEM: loads and stores at the ALU result; MEM/WB receives the word, the ALU result and LMD. */
    method MEM()
      requires Valid()
      modifies this`memWb, memory.Arrays()
      ensures Model() == MemSpec(old(Model()))
    {
      var ir, b, alu := exMem.ir, exMem.b, exMem.aluOutput;
      var output := AccessMemory(memory, OpOf(ir), alu, b);
      memWb := memWb.(ir := ir, aluOutput := alu, lmd := output);
    }

    /** EX: executes the instruction in ID/EX and fills EX/MEM. */
    method EX()
      requires Valid()
      modifies this`nextHi, this`nextLo, this`runFlag, this`exMem, nextRegs
      ensures Model() == ExSpec(old(Model()))
    {
      ghost var m0 := Model();
      var ir, a, b, immediate := ifEx.ir, ifEx.a, ifEx.b, ifEx.imm;
      var sa, rs, rt, rd := Shamt(ir), Rs(ir), Rt(ir), Rd(ir);
      var output := 0;
      match OpOf(ir) {
        case SLL => output := ShiftLeft(b, sa);
        case SRL => output := ShiftRightLogical(b, sa);
        case SRA => output := ShiftRightArith(b, sa);
        case SYSCALL =>
          if curRegs[2] == 10 {
            runFlag := false;
          }
        case MFHI =>
          nextRegs[rd] := curHi;
          output := curHi;
        case MTHI => nextHi := curRegs[rs];
        case MFLO =>
          nextRegs[rd] := curLo;
          output := curLo;
        case MTLO => nextLo := curRegs[rs];
        case MULT =>
          var p := Mult(a, b);
          nextLo, nextHi := p.lo, p.hi;
        case MULTU =>
          var p := MultU(a, b);
          nextLo, nextHi := p.lo, p.hi;
        case DIV =>
          var q := DivGuarded(a, b);
          if q.Some? {
            nextLo, nextHi := q.value.lo, q.value.hi;
          }
        case DIVU =>
          if curRegs[rt] != 0 {
            var p := DivU(curRegs[rs], curRegs[rt]);
            nextLo, nextHi := p.lo, p.hi;
          }
        case ADD => output := Add(a, b);
        case ADDU => output := Add(a, b);
        case SUB => output := Sub(a, b);
        case SUBU => output := Sub(a, b);
        case SLT => output := SetLessThan(a, b);
        case ADDI => output := Add(a, immediate);
        case ADDIU => output := Add(a, immediate);
        case SLTI => output := SetLessThan(a, SignExtend16(immediate));
        case LUI => output := ShiftLeft(immediate, 16);
        case LB | LH | LW | SB | SH | SW => output := Add(a, immediate);
        case UNKNOWN =>
      }
      exMem := exMem.(ir := ir, b := b, aluOutput := output);
      assert memory.Snapshot() == m0.mem && curRegs[..] == m0.cur.regs;
    }

    /** ID: reads the source registers and sign-extends the immediate into ID/EX. */
    method ID()
      requires Valid()
      modifies this`ifEx
      ensures Model() == IdSpec(old(Model()))
    {
      var ir := idIf.ir;
      var rs, rt := Rs(ir), Rt(ir);
      var immediate: Word := Imm16(ir);
      if immediate / 0x8000 == 1 {
        immediate := immediate + 0xFFFF_0000;
      }
      ifEx := ifEx.(a := curRegs[rs], b := curRegs[rt], ir := ir, imm := immediate);
    }

    /** IF: fetches the word at the PC into IF/ID; the next PC is 4 further on. */
    method IF()
      requires Valid()
      modifies this`idIf, this`nextPc
      ensures Model() == IfSpec(old(Model()))
    {
      ghost var m0 := Model();
      assert memory.Snapshot() == m0.mem;
      var ir := memory.Read32(curPc);
      assert memory.Snapshot() == m0.mem;
      idIf := idIf.(ir := ir);
      nextPc := Add(curPc, 4);
    }

    /** handle_pipeline: WB, MEM, EX, ID, IF, in that order. */
    method HandlePipeline()
      requires Valid()
      modifies this, nextRegs, memory.Arrays()
      ensures Model() == PipelineSpec(old(Model()))
    {
      ghost var m0 := Model();
      WB();
      ghost var m1 := Model();
      assert m1 == WbSpec(m0);
      MEM();
      ghost var m2 := Model();
      assert m2 == MemSpec(m1);
      EX();
      ghost var m3 := Model();
      assert m3 == ExSpec(m2);
      ID();
      ghost var m4 := Model();
      assert m4 == IdSpec(m3);
      IF();
    }

    /** cycle: the pipeline, then the next state is copied into the current one and the counter goes up. */
    method Cycle()
      requires Valid()
      modifies this, curRegs, nextRegs, memory.Arrays()
      ensures Model() == CycleSpec(old(Model()))
    {
      ghost var m0 := Model();
      HandlePipeline();
      ghost var p := Model();
      Advance();
      CycleOfPipeline(m0, p);
    }

    /** The end of a cycle: `CURRENT_STATE = NEXT_STATE` and the counter goes up by one. */
    method Advance()
      requires Valid()
      modifies this`curPc, this`curHi, this`curLo, this`cycleCount, curRegs
      ensures var m := old(Model()); Model() == m.(cur := m.next, cycleCount := m.cycleCount + 1)
    {
      ghost var m := Model();
      curPc, curHi, curLo := nextPc, nextHi, nextLo;
      CopyRegisters(nextRegs, curRegs);
      cycleCount := cycleCount + 1;
      assert nextRegs[..] == m.next.regs;
      assert memory.Snapshot() == m.mem;
    }

    /** run(n): with the flag down, nothing; otherwise up to `n` cycles, stopping when the flag drops. */
    method Run(n: int)
      requires Valid()
      modifies this, curRegs, nextRegs, memory.Arrays()
      ensures Model() == RunCycles(CycleSpec, old(Model()), n)
    {
      if !runFlag {
        return;
      }
      CycleSpecIsCycleStep();
      ghost var step: Machine -> Machine :| IsCycleStep(step);
      ghost var limit: nat := if n < 0 then 0 else n;
      ghost var state := Model();
      ghost var goal := Loop(step, state, limit);
      var i := 0;
      while i < n
        invariant 0 <= i <= limit
        invariant state == Model()
        invariant Loop(step, state, limit - i) == goal
      {
        if !runFlag {
          break;
        }
        state := RunStep(step, limit - i, state);
        i := i + 1;
      }
      LoopAgrees(step, old(Model()), limit);
    }

    /**
     * runAll: with the flag down, nothing; otherwise cycles until the flag
     * drops, here for at most `fuel` cycles.
     */
    method RunAll(fuel: nat)
      requires Valid()
      modifies this, curRegs, nextRegs, memory.Arrays()
      ensures Model() == RunCycles(CycleSpec, old(Model()), fuel)
    {
      if !runFlag {
        return;
      }
      CycleSpecIsCycleStep();
      ghost var step: Machine -> Machine :| IsCycleStep(step);
      ghost var state := Model();
      ghost var goal := Loop(step, state, fuel);
      var left := fuel;
      while runFlag && left > 0
        invariant state == Model()
        invariant Loop(step, state, left) == goal
      {
        state := RunStep(step, left, state);
        left := left - 1;
      }
      LoopAgrees(step, old(Model()), fuel);
    }

    /** One cycle of a run that has `k` cycles left: what remains of the run is unchanged. */
    method RunStep(ghost step: Machine -> Machine, ghost k: nat, ghost before: Machine) returns (ghost after: Machine)
      requires Valid() && runFlag && k > 0 && before == Model() && IsCycleStep(step)
      modifies this, curRegs, nextRegs, memory.Arrays()
      ensures after == Model()
      ensures Loop(step, after, k - 1) == Loop(step, before, k)
    {
      Cycle();
      after := Model();
      assert after == step(before);
      LoopUnfold(step, before, k);
    }

    /**
     * The register part of reset: registers, HI and LO cleared, the PC at the
     * text segment, the next state a copy of the current one, the flag up.
     */
    method ResetRegisters()
      requires Valid()
      modifies this, curRegs, nextRegs
      ensures Model() == ResetSpec(old(Model()), textBegin)
    {
      ghost var m0 := Model();
      for i := 0 to 32
        invariant forall k :: 0 <= k < i ==> curRegs[k] == 0
        modifies curRegs
      {
        curRegs[i] := 0;
      }
      curHi, curLo := 0, 0;
      curPc := textBegin;
      nextPc, nextHi, nextLo := curPc, curHi, curLo;
      CopyRegisters(curRegs, nextRegs);
      runFlag := true;
      assert curRegs[..] == ZeroRegs && nextRegs[..] == ZeroRegs;
      assert memory.Snapshot() == m0.mem;
    }
  }
}
