/** Board::check_interrupt and Board::single_step (src/board.cpp) around the
    processor: the INTE line, the INT latch set by the raster, and the EI delay. */
module Interrupts {
  import opened Words
  import opened Memory
  import opened I8080

  const EI: Byte := 0xFB
  const DI: Byte := 0xF3
  const HLT: Byte := 0x76

  /** The board between two iterations of the frame loop. */
  datatype Board = Board(m: Machine, lastOpcode: Byte, irqCarry: bool)

  /** What the outside gives one iteration: an IN answer, the state of the output latch after the
      raster has committed it, the RAM-disk control byte it carried (-1 if none), whether and when the
      raster raised its interrupt, and whether a frame starts with this iteration. */
  datatype Outside = Outside(inp: Byte, outPort: int, outByte: Byte, kvaz: int, videoIrq: bool, irqClk: int,
                             newFrame: bool)

  function Devices(m: Machine, o: Outside): Machine
  {
    m.(outPort := o.outPort, outByte := o.outByte,
       ram := if 0 <= o.kvaz < 256 then ControlWrite(m.ram, o.kvaz) else m.ram)
  }

  /** An acceptance is due. */
  predicate Accepts(b: Board) { b.m.irq && b.m.cpu.iff }

  function CheckInterrupt(b: Board): Board
  {
    if Accepts(b) then
      var m := SetInte(b.m, false);
      var r := if b.lastOpcode == HLT then Skip(m, 1) else m;
      b.(m := Execute(r, 0xFF, 0))
    else b
  }

  /** i8080_cycles with the last M-cycle of long instructions adjusted. */
  function Threshold(cycles: int): int
  {
    match cycles
    case 11 => 15 case 13 => 15 case 17 => 23 case 18 => 21
    case _ => cycles
  }

  /** The latch logic after the raster has run: request now, next instruction, or not at all. */
  function Latch(b: Board, cycles: int, o: Outside): Board
  {
    if o.videoIrq then
      if o.irqClk > Threshold(cycles) * 4 then b.(irqCarry := true)
      else b.(m := b.m.(irq := b.m.irq || b.m.inte))
    else if b.irqCarry then b.(irqCarry := false, m := b.m.(irq := b.m.irq || b.m.inte))
    else b
  }

  function SingleStep(b: Board, o: Outside): Board
  {
    var op := NextOp(b.m);
    var cycles := CpuCycles(b.m.cpu.flags, op);
    Latch(b.(m := Devices(Step(b.m, o.inp), o), lastOpcode := op), cycles, o)
  }

  /** The start of execute_frame drops a request carried over from the last instruction. */
  function Enter(b: Board, o: Outside): Board { if o.newFrame then b.(irqCarry := false) else b }

  /** One pass of the execute_frame loop, with the start of the frame where one begins. */
  function Iterate(b: Board, o: Outside): Board { SingleStep(CheckInterrupt(Enter(b, o)), o) }

  /** The opcode an iteration executes, after any acceptance. */
  function Executed(b: Board): Byte { NextOp(CheckInterrupt(b).m) }

  // ---- what the opcodes do to the interrupt lines ----

  datatype Lines = Lines(iff: bool, eiPending: EiCount, inte: bool, irq: bool)

  function LinesOf(m: Machine): Lines { Lines(m.cpu.iff, m.cpu.eiPending, m.inte, m.irq) }

  lemma RegLines(m: Machine, y: int, v: Byte)
    requires 0 <= y < 8
    ensures LinesOf(SetReg(m, y, v)) == LinesOf(m) && LinesOf(AluOp(m, y, v)) == LinesOf(m)
    ensures LinesOf(Inr(m, y)) == LinesOf(m) && LinesOf(Dcr(m, y)) == LinesOf(m)
    ensures LinesOf(AccOp(m, y)) == LinesOf(m)
  {
    hide Memory.Read, Memory.Write, Alu.Parity, Alu.Daa, Alu.Add, Alu.Sub, Alu.And, Alu.Or, Alu.Xor, GetReg;
  }

  lemma Quarter0Lines(m: Machine, y: int, z: int)
    requires 0 <= y < 8 && 0 <= z < 8
    ensures LinesOf(Quarter0(m, y, z)) == LinesOf(m)
  {
    hide Memory.Read, Memory.ReadWord, Inr, Dcr, AccOp, AluOp, SetReg, SetPair, GetPair, Dad, LoadStore, Imm8, Imm16;
    RegLines(m, y, Imm8(m));
    PairLines(m, y / 2, Imm16(m));
    PairLines(m, y / 2, ToWord(GetPair(m, y / 2) + (if y % 2 == 0 then 1 else -1)));
    PairLines(m, y / 2, GetPair(m, y / 2));
    LoadStoreLines(m, y);
  }

  lemma PairLines(m: Machine, p: int, w: Word)
    requires 0 <= p < 4
    ensures LinesOf(SetPair(m, p, w)) == LinesOf(m) && LinesOf(Dad(m, w)) == LinesOf(m)
  {
  }

  lemma LoadStoreLines(m: Machine, y: int)
    requires 0 <= y < 8
    ensures LinesOf(LoadStore(m, y)) == LinesOf(m)
  {
    hide Memory.Read, Memory.Write, Memory.ReadWord, Memory.WriteWord, GetPair;
  }

  lemma StackLines(m: Machine, p: int)
    requires 0 <= p < 4
    ensures LinesOf(PopPair(m, p)) == LinesOf(m) && LinesOf(PushPair(m, p)) == LinesOf(m)
    ensures LinesOf(Ret(m)) == LinesOf(m) && LinesOf(Call(m)) == LinesOf(m)
  {
    hide Memory.ReadWord, Memory.WriteWord, PackFlags, UnpackFlags;
  }

  lemma MiscLines(m: Machine, y: int, inp: Byte)
    requires 0 <= y < 6
    ensures LinesOf(Misc(m, y, inp)) == LinesOf(m)
  {
    hide Memory.Read, Memory.ReadWord, Memory.WriteWord;
  }

  lemma Quarter3Lines(m: Machine, y: int, z: int, inp: Byte)
    requires 0 <= y < 8 && 0 <= z < 8 && !(z == 3 && y >= 6)
    ensures LinesOf(Quarter3(m, y, z, inp)) == LinesOf(m)
  {
    hide Memory.Read, Memory.ReadWord, Memory.WriteWord, Memory.Write, AluOp, PopPair, PushPair, Ret, Call, Condition,
      Misc;
    if z == 6 {
      RegLines(m, y, Imm8(m));
    } else if z == 3 {
      MiscLines(m, y, inp);
    } else {
      StackLines(m, y / 2);
    }
  }

  lemma SwitchLines(m: Machine, op: Byte, inp: Byte)
    requires op != EI && op != DI
    ensures LinesOf(Switch(m, op, inp)) == LinesOf(m)
  {
    hide Quarter0, Quarter3, GetReg, AluOp, SetReg;
    var x, y, z := op / 64, op / 8 % 8, op % 8;
    assert op == 64 * x + 8 * y + z;
    RegLines(m, y, GetReg(m, z));
    Quarter0Lines(m, y, z);
    if x == 3 {
      Quarter3Lines(m, y, z, inp);
    }
  }

  /** EI raises INTE at once and arms the processor one instruction later; DI undoes both. */
  function NextLines(l: Lines, op: Byte): Lines
    requires l.eiPending <= 1
  {
    if op == EI then Lines(false, 1, true, l.irq)
    else if op == DI then Lines(false, 0, false, false)
    else if l.eiPending == 1 then Lines(true, 0, true, l.irq)
    else l
  }

  lemma ExecuteLines(m: Machine, op: Byte, inp: Byte)
    requires m.cpu.eiPending <= 1
    ensures LinesOf(Execute(m, op, inp)) == NextLines(LinesOf(m), op)
  {
    if op == EI || op == DI {
      assert op / 64 == 3 && op % 8 == 3 && op / 8 % 8 == (if op == EI then 7 else 6);
    } else {
      hide Switch;
      SwitchLines(m, op, inp);
    }
  }

  // ---- invariant of every run ----

  /** A request only while INTE is up; armed means no EI outstanding; an outstanding EI keeps INTE up. */
  predicate LinesOk(l: Lines)
  {
    && (l.irq ==> l.inte)
    && (l.iff ==> l.eiPending == 0)
    && l.eiPending <= 1
    && (l.eiPending == 1 ==> l.inte)
  }

  ghost predicate Ok(b: Board) { LinesOk(LinesOf(b.m)) }

  /** The lines after an iteration are a function of the lines before, the opcode and the latch outcome. */
  function LinesAfterCheck(l: Lines): Lines
  {
    if l.irq && l.iff then Lines(l.iff, l.eiPending, false, false) else l
  }

  lemma CheckLines(b: Board)
    requires Ok(b)
    ensures LinesOf(CheckInterrupt(b).m) == LinesAfterCheck(LinesOf(b.m))
  {
    hide Execute;
    if Accepts(b) {
      var m := SetInte(b.m, false);
      ExecuteLines(if b.lastOpcode == HLT then Skip(m, 1) else m, 0xFF, 0);
    }
  }

  /** Latching can only turn an up INTE into a request. */
  lemma IterateLines(b: Board, o: Outside)
    requires Ok(b)
    ensures var l := NextLines(LinesAfterCheck(LinesOf(b.m)), Executed(b));
            LinesOf(Iterate(b, o).m) == l || LinesOf(Iterate(b, o).m) == l.(irq := l.irq || l.inte)
    ensures Ok(Iterate(b, o)) && Iterate(b, o).lastOpcode == Executed(b)
  {
    hide Execute, CpuCycles, Memory.Read, CheckInterrupt, Latch, Devices, NextLines, LinesAfterCheck, LinesOk;
    var e := Enter(b, o);
    CarryAside(b, false);
    CheckLines(e);
    var c := CheckInterrupt(e);
    var l := LinesAfterCheck(LinesOf(b.m));
    CheckKeepsOk(LinesOf(b.m), NextOp(c.m));
    assert c.m.cpu.eiPending <= 1 by { OkEi(LinesOf(b.m)); }
    ExecuteLines(Skip(c.m, 1), NextOp(c.m), o.inp);
    assert LinesOf(Skip(c.m, 1)) == l;
    LatchLines(c, o);
  }

  lemma OkEi(l: Lines)
    requires LinesOk(l)
    ensures LinesAfterCheck(l).eiPending <= 1
  {
  }

  lemma CheckKeepsOk(l: Lines, op: Byte)
    requires LinesOk(l)
    ensures var n := NextLines(LinesAfterCheck(l), op); LinesOk(n) && LinesOk(n.(irq := n.irq || n.inte))
  {
  }

  /** After the instruction, devices leave the lines alone and the latch may raise INT under INTE. */
  lemma LatchLines(c: Board, o: Outside)
    ensures var m := Step(c.m, o.inp);
            var n := SingleStep(c, o);
            && (LinesOf(n.m) == LinesOf(m) || LinesOf(n.m) == LinesOf(m).(irq := m.irq || m.inte))
            && n.lastOpcode == NextOp(c.m)
  {
    hide Step, CpuCycles, NextOp, Threshold;
  }

  /** An acceptance does not look at the carried request. */
  lemma CarryAside(b: Board, carry: bool)
    ensures CheckInterrupt(b.(irqCarry := carry)) == CheckInterrupt(b).(irqCarry := carry)
  {
    hide Execute;
  }

  // ---- runs ----

  /** Any number of iterations, over any number of frames. */
  ghost predicate IsRun(run: seq<Board>, outs: seq<Outside>)
  {
    && |run| == |outs| + 1
    && forall k | 0 <= k < |outs| :: run[k + 1] == Iterate(run[k], outs[k])
  }

  lemma {:induction false} RunOk(run: seq<Board>, outs: seq<Outside>, k: nat)
    requires IsRun(run, outs) && Ok(run[0]) && k < |run|
    ensures Ok(run[k])
  {
    hide Ok, Iterate, Executed;
    if k > 0 {
      RunOk(run, outs, k - 1);
      IterateLines(run[k - 1], outs[k - 1]);
      assert run[(k - 1) + 1] == Iterate(run[k - 1], outs[k - 1]);
    }
  }

  /** Runs that meet join into one. */
  lemma JoinRuns(run: seq<Board>, outs: seq<Outside>, more: seq<Board>, outs': seq<Outside>)
    requires IsRun(run, outs) && IsRun(more, outs') && run[|outs|] == more[0]
    ensures IsRun(run + more[1..], outs + outs')
    ensures (run + more[1..])[0] == run[0] && (run + more[1..])[|outs + outs'|] == more[|outs'|]
  {
    hide Iterate;
    var r, o := run + more[1..], outs + outs';
    assert forall k | 0 <= k < |more| :: r[|outs| + k] == more[k];
    forall k | 0 <= k < |o| ensures r[k + 1] == Iterate(r[k], o[k]) {
      if k >= |outs| {
        var j := k - |outs|;
        assert r[|outs| + j] == more[j] && r[|outs| + (j + 1)] == more[j + 1] && o[k] == outs'[j];
      }
    }
  }

  /** Iterations i..j executed an EI and then completed something that is neither EI nor DI. */
  ghost predicate Rearmed(run: seq<Board>, i: int, j: int)
    requires 0 <= i <= j < |run|
  {
    exists k | i <= k && k + 1 < j :: Executed(run[k]) == EI && Executed(run[k + 1]) != EI && Executed(run[k + 1]) != DI
  }

  /** Before such a pair: requests are dead, or the very last instruction was the EI. */
  predicate Disarmed(l: Lines, last: Byte)
  {
    || (!l.inte && !l.irq && l.eiPending == 0)
    || (!l.iff && l.eiPending == 1 && last == EI)
  }

  lemma {:induction false} NotRearmedDisarmed(run: seq<Board>, outs: seq<Outside>, i: nat, j: nat)
    requires IsRun(run, outs) && Ok(run[0]) && i < j < |run|
    requires Accepts(run[i]) && !Rearmed(run, i, j)
    ensures Disarmed(LinesOf(run[j].m), Executed(run[j - 1]))
    decreases j
  {
    hide Ok, Iterate, Executed;
    var b := run[j - 1];
    RunOk(run, outs, j - 1);
    IterateLines(b, outs[j - 1]);
    assert run[(j - 1) + 1] == Iterate(b, outs[j - 1]);
    assert LinesOk(LinesOf(b.m)) by { OkLines(b); }
    if j - 1 > i {
      assert !Rearmed(run, i, j - 1);
      NotRearmedDisarmed(run, outs, i, j - 1);
      var k := j - 2;
      assert i <= k && k + 1 < j;
      assert !(Executed(run[k]) == EI && Executed(run[k + 1]) != EI && Executed(run[k + 1]) != DI);
    }
  }

  lemma OkLines(b: Board)
    requires Ok(b)
    ensures LinesOk(LinesOf(b.m))
  {
  }

  /** Two acceptances are always separated by an EI and a completed non-EI, non-DI instruction. */
  lemma AcceptancesSeparated(run: seq<Board>, outs: seq<Outside>, i: nat, j: nat)
    requires IsRun(run, outs) && Ok(run[0]) && i < j < |run|
    requires Accepts(run[i]) && Accepts(run[j])
    ensures Rearmed(run, i, j)
  {
    if !Rearmed(run, i, j) {
      NotRearmedDisarmed(run, outs, i, j);
    }
  }

  /** An unbroken run of EI accepts nothing after the first one, and keeps a latched request. */
  lemma {:induction false} EiRunHolds(run: seq<Board>, outs: seq<Outside>, i: nat, j: nat)
    requires IsRun(run, outs) && Ok(run[0]) && i < j < |run|
    requires forall k | i <= k < j :: Executed(run[k]) == EI
    ensures !Accepts(run[j]) && run[j].m.inte && run[j].m.cpu.eiPending == 1
    ensures run[i + 1].m.irq ==> run[j].m.irq
    decreases j
  {
    hide Ok, Iterate, Executed;
    var b := run[j - 1];
    RunOk(run, outs, j - 1);
    IterateLines(b, outs[j - 1]);
    assert run[(j - 1) + 1] == Iterate(b, outs[j - 1]);
    if j - 1 > i {
      EiRunHolds(run, outs, i, j - 1);
    }
  }

  // ---- HLT ----

  /** An acceptance goes to 0038 and pushes the address of the instruction after the last one:
      past the HLT the processor is parked on, and the program counter otherwise. */
  lemma AcceptPushes(b: Board)
    requires Ok(b) && Accepts(b)
    requires !BootHides(b.m.ram, b.m.cpu.sp - 2, true) && !BootHides(b.m.ram, b.m.cpu.sp - 1, true)
    ensures var c := CheckInterrupt(b);
            && c.m.cpu.pc == 0x38 && c.m.cpu.sp == ToWord(b.m.cpu.sp - 2)
            && Top(c.m) == (if b.lastOpcode == HLT then ToWord(b.m.cpu.pc + 1) else b.m.cpu.pc)
  {
    hide Memory.ReadWord, BootHides, Execute, Top, Rst;
    var m := SetInte(b.m, false);
    var r := if b.lastOpcode == HLT then Skip(m, 1) else m;
    WrapHides(b.m.ram, b.m.cpu.sp);
    RestartPushes(r);
    RestartExecuted(r);
  }

  lemma RestartPushes(m: Machine)
    requires var sp := ToWord(m.cpu.sp - 2); !BootHides(m.ram, sp, true) && !BootHides(m.ram, sp + 1, true)
    ensures var r := Rst(m, 0x38); r.cpu.pc == 0x38 && r.cpu.sp == ToWord(m.cpu.sp - 2) && Top(r) == m.cpu.pc
  {
    hide Memory.ReadWord, Memory.WriteWord, BootHides;
    WordRoundTrip(m.ram, ToWord(m.cpu.sp - 2), m.cpu.pc, true);
  }

  /** FF is RST 7, and the tail of the switch leaves PC, SP and memory alone. */
  lemma RestartExecuted(m: Machine)
    ensures var r, e := Rst(m, 0x38), Execute(m, 0xFF, 0);
            e.cpu.pc == r.cpu.pc && e.cpu.sp == r.cpu.sp && Top(e) == Top(r)
  {
    hide Memory.ReadWord, Memory.WriteWord;
  }

  lemma WrapHides(ram: Ram, sp: Word)
    ensures BootHides(ram, sp - 2, true) == BootHides(ram, ToWord(sp - 2), true)
    ensures BootHides(ram, sp - 1, true) == BootHides(ram, ToWord(sp - 2) + 1, true)
  {
    assert (ToWord(sp - 2) + 1) % 65536 == (sp - 1) % 65536;
  }

  /** Executing HLT parks the program counter on the HLT itself. */
  lemma HltParks(b: Board, o: Outside)
    requires Ok(b) && Executed(b) == HLT
    ensures Iterate(b, o).m.cpu.pc == CheckInterrupt(b).m.cpu.pc && Iterate(b, o).lastOpcode == HLT
  {
    hide NextOp, CheckInterrupt, CpuCycles, Step;
    CarryAside(b, false);
    HltStays(CheckInterrupt(b).m, o.inp);
  }

  lemma HltStays(m: Machine, inp: Byte)
    requires NextOp(m) == HLT
    ensures Step(m, inp).cpu.pc == m.cpu.pc
  {
    hide NextOp;
    assert ToWord(ToWord(m.cpu.pc + 1) - 1) == m.cpu.pc;
  }

  /** An HLT at address p followed by an acceptance: the handler will return to p + 1. */
  lemma HltReturnsPast(run: seq<Board>, outs: seq<Outside>, k: nat)
    requires IsRun(run, outs) && Ok(run[0]) && k + 1 < |run|
    requires Executed(run[k]) == HLT && Accepts(run[k + 1])
    requires var m := run[k + 1].m; !BootHides(m.ram, m.cpu.sp - 2, true) && !BootHides(m.ram, m.cpu.sp - 1, true)
    ensures var p := CheckInterrupt(run[k]).m.cpu.pc;
            Top(CheckInterrupt(run[k + 1]).m) == ToWord(p + 1)
  {
    hide CheckInterrupt, Iterate, Executed, BootHides, Top;
    RunOk(run, outs, k);
    RunOk(run, outs, k + 1);
    assert run[k + 1] == Iterate(run[k], outs[k]);
    HltParks(run[k], outs[k]);
    AcceptPushes(run[k + 1]);
  }
}
