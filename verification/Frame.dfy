/** Board::execute_frame (src/board.cpp): the processor, the interrupt latch and
    the raster sharing one clock. Every frame is exactly 312 lines of 768 pixel
    clocks, and the overrun of its last instruction is carried into the next. */
module Frame {
  import opened Words
  import opened Numbers
  import opened Bits
  import opened Memory
  import opened I8080
  import opened Raster
  import Interrupts

  const FRAME := 239616   // 312 * 768 pixel clocks; 59904 processor clocks

  // ---- timing of single instructions ----

  lemma VCyclesRange(f: Alu.Flags, op: Byte)
    ensures 4 <= VCycles(f, op) <= 24 && VCycles(f, op) % 4 == 0
  {
    hide Condition;
  }

  // ---- where the beam is ----

  function Pos(b: Beam): int { b.line * 768 + b.pixel }

  predicate OnScreen(b: Beam) { 0 <= b.pixel < 768 && b.pixel % 2 == 0 && 0 <= b.line < 312 }

  lemma AdvancePos(b: Beam, pa: Byte, c: Config, clk: int, u: bool)
    requires OnScreen(b)
    ensures var r := Advance(b, pa, c, clk, u);
            && OnScreen(r)
            && r.brk == (b.brk || Pos(b) + 2 == FRAME)
            && Pos(r) == if Pos(b) + 2 == FRAME then 0 else Pos(b) + 2
  {
  }

  lemma PixelPos(s: State, vram: Vram, c: Config, clk: int, t: Times)
    requires OnScreen(s.beam)
    ensures var r := Pixel(s, vram, c, clk, t);
            && OnScreen(r.s.beam)
            && r.s.beam.brk == (s.beam.brk || Pos(s.beam) + 2 == FRAME)
            && Pos(r.s.beam) == (if Pos(s.beam) + 2 == FRAME then 0 else Pos(s.beam) + 2)
            && r.afterbrk == if r.s.beam.brk then 2 else 0
  {
    hide Advance, ColorIndex, Draw, CommitAt, Colors, Pos, OnScreen;
    var (sr, index) := ColorIndex(s.sr, vram, s.beam.pixel - 24, s.beam.fbRow, Border(s.beam), s.ports.borderIndex);
    AdvancePos(s.beam, CommitAt(s.ports, clk, t, index).io.pa, c, clk, t.updateScreen);
  }

  /** n iterations move the beam 2n clocks on; past the end of the frame the clocks are counted. */
  lemma {:induction false} PixelsPos(s: State, vram: Vram, c: Config, n: nat, t: Times)
    requires OnScreen(s.beam) && !s.beam.brk && Pos(s.beam) + 2 * n < FRAME + 768
    ensures var r := Pixels(s, vram, c, n, t);
            && OnScreen(r.s.beam)
            && var over := Pos(s.beam) + 2 * n - FRAME;
            if over < 0 then !r.s.beam.brk && Pos(r.s.beam) == over + FRAME && r.afterbrk == 0
            else r.s.beam.brk && Pos(r.s.beam) == over && r.afterbrk == over + 2
  {
    hide Pixel, Pixels, OnScreen;
    PosBound(s.beam);
    if n == 0 {
      PixelsZero(s, vram, c, t);
    } else {
      PixelsPos(s, vram, c, n - 1, t);
      PixelsNext(s, vram, c, n - 1, t);
      PixelPos(Pixels(s, vram, c, n - 1, t).s, vram, c, 2 * (n - 1), t);
    }
  }

  lemma PixelsZero(s: State, vram: Vram, c: Config, t: Times)
    ensures Pixels(s, vram, c, 0, t) == Run(s, 0, 0)
  {
  }

  lemma PosBound(b: Beam)
    requires OnScreen(b)
    ensures 0 <= Pos(b) <= FRAME - 2 && Pos(b) % 2 == 0
  {
  }

  /** What fill1 does to the clock: either the frame goes on, or it ends with `over` clocks to carry. */
  lemma FillPos(s: State, vram: Vram, c: Config, clocks: nat, t: Times)
    requires OnScreen(s.beam) && !s.beam.brk && clocks % 2 == 0 && clocks < 768
    ensures var r := ReferenceFill(s, vram, c, clocks, t);
            && OnScreen(r.s.beam)
            && var over := Pos(s.beam) + clocks - FRAME;
            if over < 0 then !r.s.beam.brk && Pos(r.s.beam) == over + FRAME && r.afterbrk == 0
            else r.s.beam.brk && Pos(r.s.beam) == over && r.afterbrk == over
  {
    hide Pixels, OnScreen, CommitAt;
    PosBound(s.beam);
    PixelsPos(s, vram, c, (clocks + 1) / 2, t);
  }

  // ---- how much of the bitmap is drawn ----

  predicate ScreenConfig(c: Config) { GoodConfig(c) && 1 <= c.firstVisibleLine <= 311 }

  function Clamp(x: int, hi: int): int { if x < 0 then 0 else if x > hi then hi else x }

  /** Pixel pairs drawn on the current line before the beam position. */
  function PairsDone(pixel: int, c: Config): int { Clamp((pixel - c.centerOffset) / 2, c.screenWidth / 2) }

  function Drawable(c: Config): int { (LINES - c.firstVisibleLine) * c.screenWidth }

  /** The write offset is a function of the beam: full lines above, part of the current one. */
  ghost predicate PicOk(b: Beam, ofs: int, c: Config, shown: bool)
  {
    if b.brk then !b.visible && ofs == if shown then Drawable(c) else 0
    else if b.visible then
      && shown && c.firstVisibleLine <= b.line < LINES
      && ofs == (b.line - c.firstVisibleLine) * c.screenWidth + 2 * PairsDone(b.pixel, c)
    else ofs == 0 && (shown ==> b.line < c.firstVisibleLine)
  }

  lemma LineBelow(k: int, w: int)
    ensures (k + 1) * w == k * w + w
  {
  }

  lemma LinesBound(k: int, n: int, w: int)
    requires 0 <= k < n && w >= 0
    ensures k * w + w <= n * w
  {
    var d := n - k - 1;
    assert d * w >= 0;
    assert (k + 1 + d) * w == k * w + w + d * w;
  }

  lemma PairsStep(pixel: int, c: Config)
    requires GoodConfig(c) && pixel % 2 == 0
    ensures PairsDone(pixel + 2, c) ==
            PairsDone(pixel, c) + if 0 <= pixel - c.centerOffset < c.screenWidth then 1 else 0
    ensures 0 <= PairsDone(pixel, c) <= c.screenWidth / 2
    ensures 0 <= pixel - c.centerOffset < c.screenWidth ==> PairsDone(pixel, c) < c.screenWidth / 2
    ensures PairsDone(0, c) == 0 && PairsDone(768, c) == c.screenWidth / 2
  {
  }

  lemma PicStep(b: Beam, ofs: int, pa: Byte, c: Config, clk: int, u: bool)
    requires OnScreen(b) && ScreenConfig(c) && PicOk(b, ofs, c, u) && (b.brk ==> Pos(b) < 766)
    ensures PicOk(Advance(b, pa, c, clk, u), ofs + (if Drawn(b, c) then 2 else 0), c, u)
    ensures Drawn(b, c) ==> ofs + 2 <= Drawable(c)
  {
    hide PairsDone;
    PairsStep(b.pixel, c);
    LineBelow(b.line - c.firstVisibleLine, c.screenWidth);
    if b.visible {
      LinesBound(b.line - c.firstVisibleLine, LINES - c.firstVisibleLine, c.screenWidth);
    }
  }

  lemma PixelPic(s: State, vram: Vram, c: Config, clk: int, t: Times)
    requires OnScreen(s.beam) && ScreenConfig(c) && PicOk(s.beam, s.pic.ofs, c, t.updateScreen)
             && |s.pic.bmp| >= Drawable(c)
    requires s.beam.brk ==> Pos(s.beam) < 766
    ensures var r := Pixel(s, vram, c, clk, t).s;
            PicOk(r.beam, r.pic.ofs, c, t.updateScreen) && |r.pic.bmp| == |s.pic.bmp| && Room(s, c)
  {
    hide Advance, ColorIndex, CommitAt, Colors, PicOk, OnScreen, Put, Drawable, Pos;
    var (sr, index) := ColorIndex(s.sr, vram, s.beam.pixel - 24, s.beam.fbRow, Border(s.beam), s.ports.borderIndex);
    PicStep(s.beam, s.pic.ofs, CommitAt(s.ports, clk, t, index).io.pa, c, clk, t.updateScreen);
  }

  lemma {:induction false} PixelsPic(s: State, vram: Vram, c: Config, n: nat, t: Times)
    requires OnScreen(s.beam) && ScreenConfig(c) && PicOk(s.beam, s.pic.ofs, c, t.updateScreen)
             && |s.pic.bmp| >= Drawable(c)
    requires !s.beam.brk && Pos(s.beam) + 2 * n < FRAME + 766
    ensures var r := Pixels(s, vram, c, n, t).s;
            && OnScreen(r.beam) && PicOk(r.beam, r.pic.ofs, c, t.updateScreen) && |r.pic.bmp| == |s.pic.bmp|
            && Room(r, c)
  {
    hide Pixel, Pixels, OnScreen, PicOk, Drawable, Room;
    PixelsPos(s, vram, c, n, t);
    if n == 0 {
      PixelsZero(s, vram, c, t);
      PixelPic(s, vram, c, 0, t);
    } else {
      PixelsPic(s, vram, c, n - 1, t);
      PixelsNext(s, vram, c, n - 1, t);
      PixelsPos(s, vram, c, n - 1, t);
      var q := Pixels(s, vram, c, n - 1, t).s;
      PixelPos(q, vram, c, 2 * (n - 1), t);
      PixelPic(q, vram, c, 2 * (n - 1), t);
      PixelPic(Pixel(q, vram, c, 2 * (n - 1), t).s, vram, c, 0, t);
    }
  }

  lemma FillPic(s: State, vram: Vram, c: Config, clocks: nat, t: Times)
    requires OnScreen(s.beam) && ScreenConfig(c) && PicOk(s.beam, s.pic.ofs, c, t.updateScreen)
    requires |s.pic.bmp| >= Drawable(c) && !s.beam.brk && clocks % 2 == 0 && clocks <= 160
    ensures forall n | 0 <= n < (clocks + 1) / 2 :: Room(Pixels(s, vram, c, n, t).s, c)
    ensures var r := ReferenceFill(s, vram, c, clocks, t).s;
            PicOk(r.beam, r.pic.ofs, c, t.updateScreen) && |r.pic.bmp| == |s.pic.bmp|
  {
    hide Pixels, OnScreen, CommitAt, PicOk, Room, Drawable;
    PosBound(s.beam);
    PixelsPic(s, vram, c, (clocks + 1) / 2, t);
    forall n | 0 <= n < (clocks + 1) / 2 ensures Room(Pixels(s, vram, c, n, t).s, c) {
      PixelsPic(s, vram, c, n, t);
    }
  }

  // ---- the board ----

  function Le32(b0: Byte, b1: Byte, b2: Byte, b3: Byte): Register
  {
    BitsOf(b0, 8) + BitsOf(b1, 8) + BitsOf(b2, 8) + BitsOf(b3, 8)
  }

  /** The screen words the raster reads: four neighbouring bytes, little-endian. */
  function VramOf(ram: Ram): Vram
  {
    seq(0x14000, i requires 0 <= i < 0x14000 =>
      Le32(ram.bytes[4 * i], ram.bytes[4 * i + 1], ram.bytes[4 * i + 2], ram.bytes[4 * i + 3]))
  }

  /** commit_time and commit_time_pal of single_step: only OUT has any. */
  function CommitTimes(op: Byte, instrTime: int, updateScreen: bool): Times
  {
    if op == 0xd3 then Times((instrTime - 4) * 4, (instrTime - 4) * 4 - 20, updateScreen)
    else Times(-1, -1, updateScreen)
  }

  /** PixelFiller::fill takes the slow path whenever either commit time is not zero. */
  predicate TakesSlowPath(t: Times, b: Beam, clocks: int)
  {
    t.commit != 0 || t.palette != 0 || !FastGuard(b, clocks)
  }

  lemma BoardAlwaysTakesSlowPath(op: Byte, instrTime: int, u: bool, b: Beam, clocks: int)
    ensures TakesSlowPath(CommitTimes(op, instrTime, u), b, clocks)
  {
  }

  /** The accounts as numbers; `pos` is the beam position in pixel clocks. */
  predicate Balanced(first: bool, carried: int, extra: int, between: int, instrTime: int, pos: int, brk: bool)
  {
    if first then !brk && between == 0 && instrTime == carried && pos == 4 * carried
    else if !brk then instrTime == 0 && between > 0 && 4 * between == pos + 4 * extra && pos % 16 == 0
    else between == 59904 + extra && pos == 4 * instrTime && 0 <= instrTime <= 40 && instrTime % 4 == 0
  }

  lemma BalancedMeans(first: bool, carried: int, extra: int, between: int, instrTime: int, pos: int, brk: bool)
    requires Balanced(first, carried, extra, between, instrTime, pos, brk) && !brk
    requires carried % 4 == 0 && 0 <= carried
    ensures 0 <= instrTime && instrTime % 4 == 0 && (between != 0 ==> instrTime == 0)
    ensures (first <==> between == 0) && (first ==> instrTime == carried)
  {
  }

  lemma StepBalances(first: bool, carried: int, extra: int, between0: int, instr0: int, pos0: int, spent: int,
                     between: int, instrTime: int)
    requires 0 <= carried && carried % 4 == 0 && 0 <= extra && 16 <= spent <= 160 && spent % 16 == 0
             && 0 <= pos0 < FRAME
    requires Balanced(first, carried, extra, between0, if first then carried else 0, pos0, false)
    requires first ==> instr0 == carried + extra
    requires 4 * (between + instrTime) == spent + 4 * (if between0 == 0 then instr0 else between0)
    requires instrTime == if pos0 + spent < FRAME then 0 else (pos0 + spent - FRAME) / 4
    ensures var over := pos0 + spent - FRAME;
            if over < 0 then Balanced(false, carried, extra, between, instrTime, pos0 + spent, false)
            else Balanced(false, carried, extra, between, instrTime, over, true)
  {
    Sixteens(carried, 0);
    Quarter(pos0);
    Sixteens(pos0 / 4, spent);
  }

  lemma Quarter(pos: int)
    requires pos % 16 == 0
    ensures pos == 4 * (pos / 4) && pos / 4 % 4 == 0
  {
    DivUnique(pos, 4, 4 * (pos / 16), 0);
    DivUnique(4 * (pos / 16), 4, pos / 16, 0);
  }

  /** Whole sixteens stay whole when clocks are added and when the frame is taken off. */
  lemma Sixteens(quarter: int, spent: int)
    requires quarter % 4 == 0 && spent % 16 == 0
    ensures (4 * quarter + spent) % 16 == 0 && (4 * quarter + spent - FRAME) % 16 == 0
    ensures var over := 4 * quarter + spent - FRAME; over == 4 * (over / 4) && over / 4 % 4 == 0
  {
    var n := quarter / 4 + spent / 16;
    assert 4 * quarter + spent == 16 * n;
    DivUnique(16 * n, 16, n, 0);
    DivUnique(16 * n - FRAME, 16, n - FRAME / 16, 0);
    DivUnique(16 * n - FRAME, 4, 4 * (n - FRAME / 16), 0);
  }

  class Board {
    var m: Machine
    var lastOpcode: Byte
    var irqCarry: bool
    var between: int
    var instrTime: int
    var frameNo: nat
    const filler: PixelFiller

    constructor (m: Machine, filler: PixelFiller)
      ensures this.filler == filler && this.m == m && lastOpcode == 0 && !irqCarry
      ensures between == 0 && instrTime == 0 && frameNo == 0
    {
      this.m, this.filler := m, filler;
      lastOpcode, irqCarry, between, instrTime, frameNo := 0, false, 0, 0, 0;
    }

    /** The interrupt-relevant view. */
    ghost function B(): Interrupts.Board
      reads this
    {
      Interrupts.Board(m, lastOpcode, irqCarry)
    }

    method CheckInterrupt() returns (accepted: bool)
      modifies this
      ensures accepted == Interrupts.Accepts(old(B())) && B() == Interrupts.CheckInterrupt(old(B()))
      ensures instrTime == old(instrTime) + (if accepted then 16 else 0)
      ensures between == old(between) && frameNo == old(frameNo)
    {
      hide Execute;
      accepted := m.irq && m.cpu.iff;
      if accepted {
        m := SetInte(m, false);
        if lastOpcode == 0x76 {
          m := Jump(m, m.cpu.pc + 1);
        }
        m := Execute(m, 0xff, 0);
        instrTime := instrTime + 16;
      }
    }

    /** The raster can go on drawing this frame. */
    ghost predicate Drawing(updateScreen: bool)
      reads this, filler, filler.pixels
    {
      && OnScreen(filler.beam) && !filler.beam.brk && filler.beam.pixel % 16 == 0
      && ScreenConfig(filler.config) && filler.pixels.Length >= Drawable(filler.config)
      && PicOk(filler.beam, filler.bmpofs, filler.config, updateScreen)
    }

    /** The processor's half of single_step. */
    method RunInstruction(inp: Byte) returns (cycles: int)
      modifies this`m, this`lastOpcode, this`instrTime
      ensures lastOpcode == NextOp(old(m)) && cycles == CpuCycles(old(m).cpu.flags, NextOp(old(m)))
      ensures m == Step(old(m), inp)
      ensures instrTime == old(instrTime) + VCycles(old(m).cpu.flags, NextOp(old(m)))
    {
      hide Step, VCycles, CpuCycles;
      var op := NextOp(m);
      cycles := CpuCycles(m.cpu.flags, op);
      instrTime := instrTime + VCycles(m.cpu.flags, op);
      m := Step(m, inp);
      lastOpcode := op;
    }

    /** The raster's half: hand it the output latch, let it run, take back what it committed. */
    method RunRaster(inp: Byte, clocks: nat, updateScreen: bool) returns (afterbrk12: int, ghost o: Interrupts.Outside)
      requires Drawing(updateScreen) && clocks % 2 == 0 && clocks <= 160
      modifies this`m, filler, filler.pixels
      ensures o.inp == inp && o.videoIrq == filler.beam.irq && o.irqClk == filler.beam.irqClk && !o.newFrame
      ensures m == Interrupts.Devices(old(m), o)
      ensures OnScreen(filler.beam) && PicOk(filler.beam, filler.bmpofs, filler.config, updateScreen)
      ensures var over := Pos(old(filler.beam)) + clocks - FRAME;
              if over < 0 then !filler.beam.brk && Pos(filler.beam) == over + FRAME && afterbrk12 == 0
              else filler.beam.brk && Pos(filler.beam) == over && afterbrk12 == over
    {
      hide PicOk, OnScreen, ReferenceFill, Pixels, Drawable, Pos, VramOf, Room, FastGuard;
      filler.ports := filler.ports.(io := filler.ports.io.(outPort := m.outPort, outByte := m.outByte, kvaz := -1));
      filler.mem32 := VramOf(m.ram);
      var t := CommitTimes(lastOpcode, instrTime, updateScreen);
      BoardAlwaysTakesSlowPath(lastOpcode, instrTime, updateScreen, filler.beam, clocks);
      FillPic(filler.S(), filler.mem32, filler.config, clocks, t);
      FillPos(filler.S(), filler.mem32, filler.config, clocks, t);
      afterbrk12 := filler.Fill1(clocks, t);
      var io := filler.ports.io;
      o := Interrupts.Outside(inp, io.outPort, io.outByte, io.kvaz, filler.beam.irq, filler.beam.irqClk, false);
      m := m.(outPort := io.outPort, outByte := io.outByte,
              ram := if 0 <= io.kvaz < 256 then ControlWrite(m.ram, io.kvaz) else m.ram);
    }

    method LatchInterrupt(cycles: int, ghost o: Interrupts.Outside)
      requires o.videoIrq == filler.beam.irq && o.irqClk == filler.beam.irqClk
      modifies this`m, this`irqCarry
      ensures B() == Interrupts.Latch(old(B()), cycles, o)
    {
      if filler.beam.irq {
        if filler.beam.irqClk > Interrupts.Threshold(cycles) * 4 {
          irqCarry := true;
        } else {
          m := m.(irq := m.irq || m.inte);
        }
      } else if irqCarry {
        irqCarry := false;
        m := m.(irq := m.irq || m.inte);
      }
    }

    /** One instruction, the raster alongside it, the interrupt latch, and the clock accounts.
        `spent` is the pixel clocks the raster was given. */
    method SingleStep(inp: Byte, updateScreen: bool) returns (ghost o: Interrupts.Outside, ghost spent: int)
      requires Drawing(updateScreen)
      requires 0 <= instrTime && instrTime % 4 == 0 && (between != 0 ==> instrTime <= 16)
      modifies this, filler, filler.pixels
      ensures B() == Interrupts.SingleStep(old(B()), o) && !o.newFrame && frameNo == old(frameNo)
      ensures 16 <= spent <= 160 && spent % 16 == 0
      ensures OnScreen(filler.beam) && PicOk(filler.beam, filler.bmpofs, filler.config, updateScreen)
      ensures var over := Pos(old(filler.beam)) + spent - FRAME;
              if over < 0 then !filler.beam.brk && Pos(filler.beam) == over + FRAME && instrTime == 0
              else filler.beam.brk && Pos(filler.beam) == over && instrTime == over / 4
      ensures 4 * (between + instrTime) == spent + 4 * (if old(between) == 0 then old(instrTime) else old(between))
    {
      hide PicOk, OnScreen, CpuCycles, VCycles, Step, Drawable, Pos, Interrupts.Latch, Interrupts.Devices;
      if instrTime != 0 && between == 0 {
        between := between + instrTime;
        instrTime := 0;
      }
      VCyclesRange(m.cpu.flags, NextOp(m));
      var cycles := RunInstruction(inp);
      spent := instrTime * 4;
      var afterbrk12;
      afterbrk12, o := RunRaster(inp, instrTime * 4, updateScreen);
      LatchInterrupt(cycles, o);
      between := between + instrTime;
      instrTime := afterbrk12 / 4;
      between := between - instrTime;
    }

    /** The clock accounts inside a frame that began with `carried` clocks of overrun and
        charges `extra` clocks for an acceptance before its first instruction. */
    ghost predicate Accounts(first: bool, carried: int, extra: int)
      reads this, filler
    {
      Balanced(first, carried, extra, between, instrTime, Pos(filler.beam), filler.beam.brk)
    }

    /** One pass of the frame loop. */
    method Iteration(inp: Byte, updateScreen: bool, ghost first: bool, ghost carried: int, ghost extra: int)
      returns (ghost o: Interrupts.Outside)
      requires Drawing(updateScreen) && Accounts(first, carried, extra)
      requires 0 <= carried <= 40 && carried % 4 == 0 && extra % 4 == 0 && 0 <= extra
      requires first ==> extra == if Interrupts.Accepts(B()) then 16 else 0
      modifies this, filler, filler.pixels
      ensures B() == Interrupts.Iterate(old(B()), o) && !o.newFrame && frameNo == old(frameNo)
      ensures OnScreen(filler.beam) && PicOk(filler.beam, filler.bmpofs, filler.config, updateScreen)
      ensures Accounts(false, carried, extra)
      ensures !filler.beam.brk ==> Pos(filler.beam) > Pos(old(filler.beam))
    {
      hide PicOk, OnScreen, Pos, Drawable, Interrupts.CheckInterrupt, Interrupts.SingleStep, ScreenConfig, Balanced;
      PosBound(filler.beam);
      BalancedMeans(first, carried, extra, between, instrTime, Pos(filler.beam), filler.beam.brk);
      ghost var between0, pos0 := between, Pos(filler.beam);
      var accepted := CheckInterrupt();
      IrqFlagAside(filler.beam, filler.bmpofs, filler.config, updateScreen);
      filler.beam := filler.beam.(irq := false);
      ghost var instr0 := instrTime;
      ghost var spent;
      o, spent := SingleStep(inp, updateScreen);
      StepBalances(first, carried, extra, between0, instr0, pos0, spent, between, instrTime);
    }

    /** A whole frame without debugger breaks; `inputs` answers the IN instructions in turn. */
    method ExecuteFrame(inputs: nat -> Byte, updateScreen: bool)
      returns (ghost run: seq<Interrupts.Board>, ghost outs: seq<Interrupts.Outside>)
      requires ScreenConfig(filler.config) && filler.pixels.Length >= Drawable(filler.config)
      requires 0 <= instrTime <= 40 && instrTime % 4 == 0 && filler.beam.pixel == 4 * instrTime
      modifies this, filler, filler.pixels
      ensures between == 59904 + if Interrupts.Accepts(old(B())) then 16 else 0
      ensures 0 <= instrTime <= 40 && instrTime % 4 == 0 && filler.beam.pixel == 4 * instrTime && filler.beam.brk
      ensures filler.bmpofs == if updateScreen then Drawable(filler.config) else 0
      ensures Interrupts.IsRun(run, outs) && run[0] == old(B()) && run[|outs|] == B()
      ensures |outs| > 0 && forall k | 0 <= k < |outs| :: outs[k].newFrame <==> k == 0
      ensures frameNo == old(frameNo) + 1
    {
      hide PicOk, OnScreen, Pos, Drawable, ScreenConfig, Interrupts.Iterate, Interrupts.IsRun;
      frameNo := frameNo + 1;
      filler.Reset();
      irqCarry := false;
      between := 0;
      StartOfFrame(filler.beam, filler.bmpofs, filler.config, updateScreen);
      run, outs := [old(B())], [];
      SingletonRun(old(B()));
      var n: nat := 0;
      ghost var carried, extra := instrTime, if Interrupts.Accepts(B()) then 16 else 0;
      while !filler.beam.brk
        invariant OnScreen(filler.beam) && PicOk(filler.beam, filler.bmpofs, filler.config, updateScreen)
        invariant Accounts(n == 0, carried, extra) && frameNo == old(frameNo) + 1
        invariant |run| == |outs| + 1 == n + 1 && Interrupts.IsRun(run, outs)
        invariant run[0] == old(B()) && if n == 0 then B() == old(B()).(irqCarry := false) else run[n] == B()
        invariant forall k | 0 <= k < n :: outs[k].newFrame <==> k == 0
        decreases !filler.beam.brk, FRAME - Pos(filler.beam)
      {
        PosMod(filler.beam);
        PosBound(filler.beam);
        ghost var o := Iteration(inputs(n), updateScreen, n == 0, carried, extra);
        if n == 0 {
          FirstIteration(old(B()), o);
          o := o.(newFrame := true);
        }
        n := n + 1;
        AppendRun(run, outs, o, B());
        run, outs := run + [B()], outs + [o];
      }
      EndOfFrame(filler.beam, filler.bmpofs, filler.config, updateScreen);
    }

    /** Any number of frames is one run of the interrupt model, with a frame start per frame. */
    method ExecuteFrames(count: nat, inputs: (nat, nat) -> Byte, updateScreen: nat -> bool)
      returns (ghost run: seq<Interrupts.Board>, ghost outs: seq<Interrupts.Outside>)
      requires ScreenConfig(filler.config) && filler.pixels.Length >= Drawable(filler.config)
      requires 0 <= instrTime <= 40 && instrTime % 4 == 0 && filler.beam.pixel == 4 * instrTime
      modifies this, filler, filler.pixels
      ensures Interrupts.IsRun(run, outs) && run[0] == old(B()) && run[|outs|] == B()
      ensures FrameStarts(outs) == count && frameNo == old(frameNo) + count
      ensures 0 <= instrTime <= 40 && instrTime % 4 == 0 && filler.beam.pixel == 4 * instrTime
    {
      hide Drawable, ScreenConfig, Interrupts.IsRun;
      run, outs := [B()], [];
      SingletonRun(B());
      for n := 0 to count
        invariant Interrupts.IsRun(run, outs) && |run| == |outs| + 1 && run[0] == old(B()) && run[|outs|] == B()
        invariant FrameStarts(outs) == n && frameNo == old(frameNo) + n
        invariant 0 <= instrTime <= 40 && instrTime % 4 == 0 && filler.beam.pixel == 4 * instrTime
      {
        ghost var more, outs' := ExecuteFrame(k => inputs(n, k), updateScreen(n));
        RunLength(more, outs');
        Interrupts.JoinRuns(run, outs, more, outs');
        StartsAdd(outs, outs');
        OneStart(outs');
        run, outs := run + more[1..], outs + outs';
      }
    }
  }

  function FrameStarts(outs: seq<Interrupts.Outside>): nat
  {
    if outs == [] then 0 else FrameStarts(outs[..|outs| - 1]) + if outs[|outs| - 1].newFrame then 1 else 0
  }

  lemma {:induction false} StartsAdd(a: seq<Interrupts.Outside>, b: seq<Interrupts.Outside>)
    ensures FrameStarts(a + b) == FrameStarts(a) + FrameStarts(b)
  {
    if b == [] {
      assert a + b == a;
    } else {
      assert (a + b)[..|a + b| - 1] == a + b[..|b| - 1];
      StartsAdd(a, b[..|b| - 1]);
    }
  }

  lemma {:induction false} OneStart(outs: seq<Interrupts.Outside>)
    requires |outs| > 0 && forall k | 0 <= k < |outs| :: outs[k].newFrame <==> k == 0
    ensures FrameStarts(outs) == 1
  {
    var p := outs[..|outs| - 1];
    if p != [] {
      OneStart(p);
    }
  }

  lemma RunLength(run: seq<Interrupts.Board>, outs: seq<Interrupts.Outside>)
    requires Interrupts.IsRun(run, outs)
    ensures |run| == |outs| + 1
  {
    hide Interrupts.Iterate;
  }

  /** Starting a frame with an iteration is clearing the carried request before it. */
  lemma FirstIteration(b: Interrupts.Board, o: Interrupts.Outside)
    requires !o.newFrame
    ensures Interrupts.Iterate(b, o.(newFrame := true)) == Interrupts.Iterate(b.(irqCarry := false), o)
  {
    hide Step, CpuCycles, Interrupts.CheckInterrupt, Interrupts.Latch, NextOp;
    var e := b.(irqCarry := false);
    assert Interrupts.Enter(b, o.(newFrame := true)) == e == Interrupts.Enter(e, o);
    LatchAside(o);
  }

  /** The latch does not look at where frames start. */
  lemma LatchAside(o: Interrupts.Outside)
    ensures forall b, cycles :: Interrupts.Latch(b, cycles, o.(newFrame := true)) == Interrupts.Latch(b, cycles, o)
  {
  }

  lemma SingletonRun(b: Interrupts.Board)
    ensures Interrupts.IsRun([b], [])
  {
  }

  lemma StartOfFrame(b: Beam, ofs: nat, c: Config, u: bool)
    requires b.line == 0 && !b.visible && !b.brk && ofs == 0 && ScreenConfig(c) && 0 <= b.pixel <= 160
             && b.pixel % 2 == 0
    ensures OnScreen(b) && PicOk(b, ofs, c, u) && Pos(b) == b.pixel
  {
  }

  lemma EndOfFrame(b: Beam, ofs: nat, c: Config, u: bool)
    requires b.brk && OnScreen(b) && PicOk(b, ofs, c, u) && Pos(b) < 768
    ensures b.pixel == Pos(b) && ofs == if u then Drawable(c) else 0
  {
    hide Drawable;
  }

  lemma PosMod(b: Beam)
    requires OnScreen(b) && Pos(b) % 16 == 0
    ensures b.pixel % 16 == 0
  {
    DivUnique(Pos(b), 16, 48 * b.line + b.pixel / 16, b.pixel % 16);
  }

  lemma IrqFlagAside(b: Beam, ofs: nat, c: Config, u: bool)
    ensures forall x: bool ::
              && OnScreen(b.(irq := x)) == OnScreen(b) && Pos(b.(irq := x)) == Pos(b)
              && PicOk(b.(irq := x), ofs, c, u) == PicOk(b, ofs, c, u)
  {
  }

  lemma AppendRun(run: seq<Interrupts.Board>, outs: seq<Interrupts.Outside>, o: Interrupts.Outside, b: Interrupts.Board)
    requires Interrupts.IsRun(run, outs) && b == Interrupts.Iterate(run[|outs|], o)
    ensures Interrupts.IsRun(run + [b], outs + [o])
  {
    hide Interrupts.Iterate;
  }
}
