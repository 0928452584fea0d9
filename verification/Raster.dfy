/** The raster generator (src/filler.cpp) and the delayed port writes it commits
    (src/vio.h). `Pixels` is the per-pixel reference behaviour of fill1; the fast
    loops fill2, fill3 and fill4 are proved to do the same. */
module Raster {
  import opened Words
  import opened Bits

  /** A line is 768 pixel clocks, two per loop iteration; a frame is 312 lines. */
  const LINE := 768
  const LINES := 312

  /** mem32: the four bit planes of a screen byte, one plane per byte of the word. */
  type Vram = s: seq<Register> | |s| == 0x14000 witness seq(0x14000, _ => Falses(32))

  /** Sixteen raw palette bytes; rgb2pixelformat is applied by the display. */
  type Palette = s: seq<Byte> | |s| == 16 witness seq(16, _ => 0)

  type Nibble = x: int | 0 <= x < 16

  /** The part of IO the raster reads or commits; -1 stands for an empty latch. */
  datatype Io = Io(palette: Palette, cw: Byte, pa: Byte, pb: Byte, pc: Byte,
                   outPort: int, outByte: Byte, paletteByte: int, kvaz: int)

  datatype Config = Config(firstVisibleLine: int, centerOffset: int, screenWidth: int)

  /** Where the beam is and what the line counters say. */
  datatype Beam = Beam(pixel: int, line: int, fbRow: int, vborder: bool, visible: bool,
                       brk: bool, irq: bool, irqClk: int)

  datatype ShiftReg = ShiftReg(bits: Register, column: int)

  datatype Picture = Picture(bmp: seq<Byte>, ofs: nat)

  datatype Ports = Ports(io: Io, borderIndex: Nibble, mode512: bool)

  datatype State = State(beam: Beam, sr: ShiftReg, pic: Picture, ports: Ports)

  // ---- shift register ----

  /** The most significant bit of every plane byte, plane 0 first. */
  function ShiftIndex(p: Register): Nibble
  {
    8 * Flag(p[7]) + 4 * Flag(p[15]) + 2 * Flag(p[23]) + Flag(p[31])
  }

  function FetchAddress(column: int, row: int): (a: int)
    ensures 0x2000 <= a < 0x12000
  {
    0x2000 + column % 256 * 256 + row % 256
  }

  /** getColorIndex: the shift register it leaves and the index it returns. */
  function ColorIndex(sr: ShiftReg, vram: Vram, rpixel: int, fbRow: int, border: bool, borderIndex: Nibble)
    : (ShiftReg, Nibble)
  {
    if border then (sr.(column := 0), borderIndex)
    else
      var f := if rpixel % 16 == 0 then ShiftReg(vram[FetchAddress(sr.column, fbRow)], sr.column + 1) else sr;
      (f.(bits := ShiftLeft(f.bits, 1)), ShiftIndex(f.bits))
  }

  // ---- delayed output ----

  function SetBit(x: Byte, bit: int, on: bool): Byte
    requires 0 <= bit < 8
  {
    var w := [1, 2, 4, 8, 16, 32, 64, 128][bit];
    var without: Byte := if x / w % 2 == 1 then x - w else x;
    if on then without + w else without
  }

  /** realoutput, for the ports that reach the raster or the memory pager. */
  function RealOutput(p: Ports, port: int, w8: Byte): Ports
  {
    if port == 0x00 then
      if w8 < 128 then p.(io := p.io.(pc := SetBit(p.io.pc, w8 / 2 % 8, w8 % 2 == 1)))
      else Ports(p.io.(cw := w8, pa := 0, pb := 0, pc := 0), 0, false)
    else if port == 0x01 then p.(io := p.io.(pc := w8))
    else if port == 0x02 then Ports(p.io.(pb := w8), w8 % 16, w8 / 16 % 2 == 1)
    else if port == 0x03 then p.(io := p.io.(pa := w8))
    else if 0x0c <= port <= 0x0f then p.(io := p.io.(paletteByte := w8))
    else if port == 0x10 then p.(io := p.io.(kvaz := w8))
    else p
  }

  function Commit(p: Ports): Ports
  {
    if p.io.outPort == -1 then p
    else var r := RealOutput(p, p.io.outPort, p.io.outByte); r.(io := r.io.(outPort := -1))
  }

  function CommitPalette(p: Ports, index: Nibble): Ports
  {
    var direct := p.io.paletteByte == -1 && p.io.outPort == 0x0c;
    var w8 := if direct then p.io.outByte else p.io.paletteByte;
    if 0 <= w8 < 256 then
      p.(io := p.io.(palette := p.io.palette[index := w8], paletteByte := -1,
                     outPort := if direct then -1 else p.io.outPort))
    else p
  }

  datatype Times = Times(commit: int, palette: int, updateScreen: bool)

  function CommitAt(p: Ports, clk: int, t: Times, index: Nibble): Ports
  {
    var u := if clk == t.commit then Commit(p) else p;
    if clk == t.palette then CommitPalette(u, index) else u
  }

  // ---- one pixel pair of fill1 ----

  predicate Border(b: Beam)
  {
    b.vborder || b.pixel - 24 < 128 || b.pixel - 24 >= 640
  }

  function Put(p: Picture, left: Byte, right: Byte): (r: Picture)
    ensures |r.bmp| == |p.bmp| && r.ofs == p.ofs + 2
  {
    Picture(if p.ofs + 1 < |p.bmp| then p.bmp[p.ofs := left][p.ofs + 1 := right] else p.bmp, p.ofs + 2)
  }

  /** The two screen pixels an index stands for: one colour, or two in 512-pixel mode. */
  function Colors(p: Ports, index: Nibble, border: bool): (Byte, Byte)
  {
    if p.mode512 && !border then (p.io.palette[index % 4], p.io.palette[index - index % 4])
    else (p.io.palette[index], p.io.palette[index])
  }

  predicate Drawn(b: Beam, c: Config) { b.visible && 0 <= b.pixel - c.centerOffset < c.screenWidth }

  function Draw(p: Picture, b: Beam, c: Config, colors: (Byte, Byte)): (r: Picture)
    ensures |r.bmp| == |p.bmp| && p.ofs <= r.ofs <= p.ofs + 2
  {
    if Drawn(b, c) then Put(p, colors.0, colors.1) else p
  }

  /** If the next pixel pair is to be drawn, it still fits the bitmap. */
  predicate Room(s: State, c: Config) { Drawn(s.beam, c) ==> s.pic.ofs + 2 <= |s.pic.bmp| }

  function AdvanceLine(b: Beam, c: Config, updateScreen: bool): Beam
  {
    var line := b.line + 1;
    var row := if !b.vborder && b.fbRow - 1 < 0 then 255 else b.fbRow - 1;
    var t := b.(pixel := 0, line := line, fbRow := row, vborder := line < 40 || line >= 296,
                visible := b.visible || (updateScreen && line == c.firstVisibleLine));
    if line == LINES then t.(line := 0, visible := false, brk := true) else t
  }

  function Advance(b: Beam, pa: Byte, c: Config, clk: int, updateScreen: bool): Beam
  {
    var t := b.(pixel := b.pixel + 2);
    var u := if t.pixel == LINE then AdvanceLine(t, c, updateScreen) else t;
    if u.line == 40 && u.pixel == 150 then u.(fbRow := pa)
    else if u.line == 0 && u.pixel == 174 then u.(irq := true, irqClk := clk)
    else u
  }

  datatype Run = Run(s: State, index: Nibble, afterbrk: int)

  function Pixel(s: State, vram: Vram, c: Config, clk: int, t: Times): Run
  {
    var border := Border(s.beam);
    var (sr, index) := ColorIndex(s.sr, vram, s.beam.pixel - 24, s.beam.fbRow, border, s.ports.borderIndex);
    var ports := CommitAt(s.ports, clk, t, index);
    var pic := Draw(s.pic, s.beam, c, Colors(ports, index, border));
    var beam := Advance(s.beam, ports.io.pa, c, clk, t.updateScreen);
    Run(State(beam, sr, pic, ports), index, if beam.brk then 2 else 0)
  }

  /** n iterations of the fill1 loop. */
  function Pixels(s: State, vram: Vram, c: Config, n: nat, t: Times): Run
  {
    if n == 0 then Run(s, 0, 0) else
    var r := Pixels(s, vram, c, n - 1, t);
    var p := Pixel(r.s, vram, c, 2 * (n - 1), t);
    Run(p.s, p.index, r.afterbrk + p.afterbrk)
  }

  /** All of fill1: the loop, the commits due right after it, and the clocks spent past the frame. */
  function ReferenceFill(s: State, vram: Vram, c: Config, clocks: nat, t: Times): Run
  {
    var n := (clocks + 1) / 2;
    var r := Pixels(s, vram, c, n, t);
    Run(r.s.(ports := CommitAt(r.s.ports, 2 * n, t, r.index)), r.index,
        if r.afterbrk > 0 then r.afterbrk - 2 else 0)
  }

  // ---- inside the picture window the reference loop only shifts and draws ----

  /** Offsets the options parser derives from a border width of 0..104. */
  predicate GoodConfig(c: Config)
  {
    48 <= c.centerOffset <= 152 && c.screenWidth == 816 - 2 * c.centerOffset
  }

  predicate InWindow(b: Beam)
  {
    b.visible && !b.brk && b.line != 0 && b.line != 40 && 152 <= b.pixel < 640
  }

  function FastStep(s: State, vram: Vram): State
  {
    var (sr, index) := ColorIndex(s.sr, vram, s.beam.pixel - 24, s.beam.fbRow, s.beam.vborder, s.ports.borderIndex);
    var colors := Colors(s.ports, index, s.beam.vborder);
    State(s.beam.(pixel := s.beam.pixel + 2), sr, Put(s.pic, colors.0, colors.1), s.ports)
  }

  function Fast(s: State, vram: Vram, n: nat): (r: State)
    ensures |r.pic.bmp| == |s.pic.bmp| && r.pic.ofs == s.pic.ofs + 2 * n
    ensures r.beam == s.beam.(pixel := s.beam.pixel + 2 * n) && r.ports == s.ports
  {
    if n == 0 then s else FastStep(Fast(s, vram, n - 1), vram)
  }

  /** One more step, spelled out in terms of the state the stretch began in. */
  lemma FastNext(s: State, vram: Vram, n: nat)
    ensures var f := Fast(s, vram, n);
            var (sr, index) := ColorIndex(f.sr, vram, s.beam.pixel + 2 * n - 24, s.beam.fbRow, s.beam.vborder,
              s.ports.borderIndex);
            var colors := Colors(s.ports, index, s.beam.vborder);
            Fast(s, vram, n + 1).sr == sr && Fast(s, vram, n + 1).pic == Put(f.pic, colors.0, colors.1)
  {
    hide ColorIndex, Put, Colors;
    assert Fast(s, vram, n + 1) == FastStep(Fast(s, vram, n), vram);
  }

  lemma FastStepIsPixel(s: State, vram: Vram, c: Config, clk: int, t: Times)
    requires InWindow(s.beam) && GoodConfig(c) && clk != t.commit && clk != t.palette
    ensures Pixel(s, vram, c, clk, t).s == FastStep(s, vram) && Pixel(s, vram, c, clk, t).afterbrk == 0
  {
    hide ColorIndex, Put, Colors;
  }

  lemma PixelsNext(s: State, vram: Vram, c: Config, n: nat, t: Times)
    ensures var r := Pixels(s, vram, c, n, t);
            var p := Pixel(r.s, vram, c, 2 * n, t);
            Pixels(s, vram, c, n + 1, t) == Run(p.s, p.index, r.afterbrk + p.afterbrk)
  {
    hide Pixel;
  }

  lemma FastLast(s: State, vram: Vram, n: nat)
    ensures Fast(s, vram, n + 1) == FastStep(Fast(s, vram, n), vram)
  {
    hide FastStep;
  }

  lemma NoPixels(s: State, vram: Vram, c: Config, t: Times)
    ensures Pixels(s, vram, c, 0, t).s == Fast(s, vram, 0) && Pixels(s, vram, c, 0, t).afterbrk == 0
  {
  }

  lemma {:induction false} FastIsPixels(s: State, vram: Vram, c: Config, n: nat, t: Times)
    requires InWindow(s.beam) && GoodConfig(c) && s.beam.pixel + 2 * n <= 640
    requires t.commit == -1 && t.palette == -1
    ensures Pixels(s, vram, c, n, t).s == Fast(s, vram, n) && Pixels(s, vram, c, n, t).afterbrk == 0
  {
    hide FastStep, Pixel, GoodConfig, Fast, Pixels;
    if n == 0 {
      NoPixels(s, vram, c, t);
    } else {
      FastIsPixels(s, vram, c, n - 1, t);
      PixelsNext(s, vram, c, n - 1, t);
      FastLast(s, vram, n - 1);
      FastStepIsPixel(Fast(s, vram, n - 1), vram, c, 2 * (n - 1), t);
    }
  }

  /** The dispatcher's test for the slow path (its commit times aside) is false. */
  predicate FastGuard(b: Beam, clocks: int)
  {
    && b.line != 40 && b.line != 0 && b.line != 311
    && !(b.pixel <= 128 + clocks) && !(b.pixel + clocks >= 640)
  }

  /** What the callers of the fast loops provide: whole 16-clock groups in a visible line. */
  predicate FastPre(s: State, c: Config, clocks: int)
  {
    && FastGuard(s.beam, clocks) && GoodConfig(c) && s.beam.visible && !s.beam.brk
    && clocks > 0 && clocks % 16 == 0 && s.beam.pixel % 16 == 0
    && s.pic.ofs + clocks <= |s.pic.bmp|
  }

  /** In the fast loops' domain fill1 is the plain repetition. */
  lemma FillIsFast(s: State, vram: Vram, c: Config, clocks: int, t: Times)
    requires FastPre(s, c, clocks) && t.commit == -1 && t.palette == -1
    ensures ReferenceFill(s, vram, c, clocks, t).s == Fast(s, vram, clocks / 2)
    ensures ReferenceFill(s, vram, c, clocks, t).afterbrk == 0
  {
    hide Fast, Pixels;
    assert InWindow(s.beam);
    FastIsPixels(s, vram, c, clocks / 2, t);
    assert (clocks + 1) / 2 == clocks / 2;
  }

  // ---- the filler itself ----

  class PixelFiller {
    var beam: Beam
    var sr: ShiftReg
    var bmpofs: nat
    var ports: Ports
    var mem32: Vram
    const config: Config
    const pixels: array<Byte>

    ghost function S(): State
      reads this, pixels
    {
      State(beam, sr, Picture(pixels[..], bmpofs), ports)
    }

    constructor (config: Config, pixels: array<Byte>, io: Io, mem32: Vram)
      ensures this.config == config && this.pixels == pixels && this.mem32 == mem32
      ensures S() == State(Beam(0, 0, 0, true, false, false, false, 0), ShiftReg(Falses(32), 0),
                           Picture(pixels[..], 0), Ports(io, 0, false))
    {
      this.config, this.pixels, this.mem32 := config, pixels, mem32;
      beam, sr, bmpofs, ports := Beam(0, 0, 0, true, false, false, false, 0), ShiftReg(Falses(32), 0), 0,
        Ports(io, 0, false);
    }

    /** Start of a frame; the horizontal counter keeps running. */
    method Reset()
      modifies this
      ensures S() == old(S()).(beam := old(beam).(line := 0, fbRow := 0, vborder := true, visible := false,
                                                  brk := false, irq := false),
                               sr := old(sr).(column := 0), pic := Picture(pixels[..], 0))
      ensures mem32 == old(mem32)
    {
      beam := beam.(line := 0, fbRow := 0, vborder := true, visible := false, brk := false, irq := false);
      sr := sr.(column := 0);
      bmpofs := 0;
    }

    method FetchPixels()
      modifies this`sr
      ensures sr == old(sr).(bits := mem32[FetchAddress(old(sr).column, beam.fbRow)])
    {
      sr := sr.(bits := mem32[FetchAddress(sr.column, beam.fbRow)]);
    }

    method ShiftOutPixels() returns (index: Nibble)
      modifies this`sr
      ensures index == ShiftIndex(old(sr).bits) && sr == old(sr).(bits := ShiftLeft(old(sr).bits, 1))
    {
      index := ShiftIndex(sr.bits);
      sr := sr.(bits := ShiftLeft(sr.bits, 1));
    }

    method GetColorIndex(rpixel: int, border: bool) returns (index: Nibble)
      modifies this`sr
      ensures (sr, index) == ColorIndex(old(sr), mem32, rpixel, beam.fbRow, border, ports.borderIndex)
    {
      hide ShiftIndex, ShiftLeft, FetchAddress;
      if border {
        sr := sr.(column := 0);
        index := ports.borderIndex;
      } else {
        if rpixel % 16 == 0 {
          FetchPixels();
          sr := sr.(column := sr.column + 1);
        }
        index := ShiftOutPixels();
      }
    }

    method PutPair(left: Byte, right: Byte)
      requires bmpofs + 1 < pixels.Length
      modifies this`bmpofs, pixels
      ensures Picture(pixels[..], bmpofs) == Put(Picture(old(pixels[..]), old(bmpofs)), left, right)
    {
      pixels[bmpofs] := left;
      bmpofs := bmpofs + 1;
      pixels[bmpofs] := right;
      bmpofs := bmpofs + 1;
    }

    method NextLine(updateScreen: bool)
      modifies this`beam
      ensures beam == AdvanceLine(old(beam), config, updateScreen)
    {
      beam := beam.(pixel := 0, line := beam.line + 1, fbRow := beam.fbRow - 1);
      if !beam.vborder && beam.fbRow < 0 {
        beam := beam.(fbRow := 0xff);
      }
      beam := beam.(vborder := beam.line < 40 || beam.line >= 40 + 256,
                    visible := beam.visible || (updateScreen && beam.line == config.firstVisibleLine));
      if beam.line == 312 {
        beam := beam.(line := 0, visible := false, brk := true);
      }
    }

    method AdvanceBeam(clk: int, updateScreen: bool)
      modifies this`beam
      ensures beam == Advance(old(beam), ports.io.pa, config, clk, updateScreen)
    {
      hide AdvanceLine;
      beam := beam.(pixel := beam.pixel + 2);
      if beam.pixel == 768 {
        NextLine(updateScreen);
      }
      if beam.line == 22 + 18 && beam.pixel == 150 {
        beam := beam.(fbRow := ports.io.pa);
      } else if beam.line == 0 && beam.pixel == 174 {
        beam := beam.(irq := true, irqClk := clk);
      }
    }

    /** One iteration of the fill1 loop. */
    method FillPixel(clk: int, t: Times) returns (index: Nibble)
      requires Room(S(), config)
      modifies this, pixels
      ensures Run(S(), index, if beam.brk then 2 else 0) == Pixel(old(S()), old(mem32), config, clk, t)
      ensures mem32 == old(mem32)
    {
      hide ColorIndex, Put, CommitAt, Advance, Commit, CommitPalette;
      var rpixel := beam.pixel - 24;
      var border := beam.vborder || rpixel < (768 - 512) / 2 || rpixel >= 768 - (768 - 512) / 2;
      index := GetColorIndex(rpixel, border);
      ports := CommitAt(ports, clk, t, index);
      if beam.visible {
        var x := beam.pixel - config.centerOffset;
        if 0 <= x < config.screenWidth {
          if ports.mode512 && !border {
            PutPair(ports.io.palette[index % 4], ports.io.palette[index - index % 4]);
          } else {
            var p := ports.io.palette[index];
            PutPair(p, p);
          }
        }
      }
      AdvanceBeam(clk, t.updateScreen);
    }

    method Fill1(clocks: nat, t: Times) returns (afterbrk: int)
      requires forall n | 0 <= n < (clocks + 1) / 2 :: Room(Pixels(S(), mem32, config, n, t).s, config)
      modifies this, pixels
      ensures var r := ReferenceFill(old(S()), old(mem32), config, clocks, t); S() == r.s && afterbrk == r.afterbrk
      ensures mem32 == old(mem32)
    {
      hide Pixel, CommitAt;
      var clk := 0;
      var index: Nibble := 0;
      afterbrk := 0;
      ghost var n: nat := 0;
      while clk < clocks
        invariant clk == 2 * n <= clocks + 1 && mem32 == old(mem32)
        invariant Pixels(old(S()), mem32, config, n, t) == Run(S(), index, afterbrk)
      {
        index := FillPixel(clk, t);
        clk := clk + 2;
        afterbrk := afterbrk + (if beam.brk then 2 else 0);
        n := n + 1;
      }
      assert n == (clocks + 1) / 2;
      ports := CommitAt(ports, clk, t, index);
      if afterbrk != 0 {
        afterbrk := afterbrk - 2;
      }
    }

    /** Eight getColorIndex calls in a row, as palette entries. */
    method GroupColors(ghost s0: State, ghost n: nat, rpixel: int) returns (p: seq<Byte>)
      requires rpixel == s0.beam.pixel + 2 * n - 24 && beam.fbRow == s0.beam.fbRow && ports == s0.ports
      requires !s0.beam.vborder && !ports.mode512 && sr == Fast(s0, mem32, n).sr
      modifies this`sr
      ensures |p| == 8 && sr == Fast(s0, mem32, n + 8).sr
      ensures forall i | 0 <= i < 8 :: Fast(s0, mem32, n + i + 1).pic == Put(Fast(s0, mem32, n + i).pic, p[i], p[i])
    {
      hide ColorIndex, Put, Fast;
      p := [];
      for j := 0 to 8
        invariant |p| == j && sr == Fast(s0, mem32, n + j).sr
        invariant forall i | 0 <= i < j :: Fast(s0, mem32, n + i + 1).pic == Put(Fast(s0, mem32, n + i).pic, p[i], p[i])
      {
        FastNext(s0, mem32, n + j);
        var index := GetColorIndex(rpixel + 2 * j, false);
        p := p + [ports.io.palette[index]];
      }
    }

    /** Sixteen stores, two per colour. */
    method StoreGroup(p: seq<Byte>, ghost s0: State, ghost n: nat)
      requires |p| == 8 && bmpofs + 16 <= pixels.Length
      requires Picture(pixels[..], bmpofs) == Fast(s0, mem32, n).pic
      requires forall i | 0 <= i < 8 :: Fast(s0, mem32, n + i + 1).pic == Put(Fast(s0, mem32, n + i).pic, p[i], p[i])
      modifies this`bmpofs, pixels
      ensures Picture(pixels[..], bmpofs) == Fast(s0, mem32, n + 8).pic
    {
      hide Put, Fast;
      for j := 0 to 8
        invariant bmpofs == old(bmpofs) + 2 * j
        invariant Picture(pixels[..], bmpofs) == Fast(s0, mem32, n + j).pic
      {
        PutPair(p[j], p[j]);
      }
    }

    /** 256-pixel mode, no output under way: groups of eight indices, then sixteen stores. */
    method Fill2(clocks: int, ghost t: Times) returns (afterbrk: int)
      requires FastPre(S(), config, clocks) && !beam.vborder && !ports.mode512
      requires t.commit == -1 && t.palette == -1
      modifies this, pixels
      ensures var r := ReferenceFill(old(S()), old(mem32), config, clocks, t); S() == r.s && afterbrk == r.afterbrk
      ensures mem32 == old(mem32)
    {
      hide ReferenceFill, ColorIndex, Put, Fast;
      ghost var s0 := S();
      FillIsFast(s0, mem32, config, clocks, t);
      var rpixel := beam.pixel - 24;
      beam := beam.(pixel := beam.pixel + clocks);
      FastZero(s0, mem32);
      for k := 0 to clocks / 16
        invariant rpixel == s0.beam.pixel + 16 * k - 24 && bmpofs == s0.pic.ofs + 16 * k
        invariant sr == Fast(s0, mem32, 8 * k).sr && Picture(pixels[..], bmpofs) == Fast(s0, mem32, 8 * k).pic
        invariant beam == s0.beam.(pixel := s0.beam.pixel + clocks) && ports == s0.ports && mem32 == old(mem32)
      {
        var p := GroupColors(s0, 8 * k, rpixel);
        StoreGroup(p, s0, 8 * k);
        rpixel := rpixel + 16;
        assert 8 * (k + 1) == 8 * k + 8;
      }
      assert 8 * (clocks / 16) == clocks / 2;
      afterbrk := 0;
    }

    /** 512-pixel mode: each index gives two pixels from its low and its high half. */
    method Fill3(clocks: int, ghost t: Times) returns (afterbrk: int)
      requires FastPre(S(), config, clocks) && !beam.vborder && ports.mode512
      requires t.commit == -1 && t.palette == -1
      modifies this, pixels
      ensures var r := ReferenceFill(old(S()), old(mem32), config, clocks, t); S() == r.s && afterbrk == r.afterbrk
      ensures mem32 == old(mem32)
    {
      hide ReferenceFill, ColorIndex, Put, Fast;
      ghost var s0 := S();
      FillIsFast(s0, mem32, config, clocks, t);
      var rpixel := beam.pixel - 24;
      beam := beam.(pixel := beam.pixel + clocks);
      FastZero(s0, mem32);
      for k := 0 to clocks / 16
        invariant rpixel == s0.beam.pixel + 16 * k - 24 && bmpofs == s0.pic.ofs + 16 * k
        invariant sr == Fast(s0, mem32, 8 * k).sr && Picture(pixels[..], bmpofs) == Fast(s0, mem32, 8 * k).pic
        invariant beam == s0.beam.(pixel := s0.beam.pixel + clocks) && ports == s0.ports && mem32 == old(mem32)
      {
        for j := 0 to 8
          invariant rpixel == s0.beam.pixel + 16 * k + 2 * j - 24 && bmpofs == s0.pic.ofs + 16 * k + 2 * j
          invariant sr == Fast(s0, mem32, 8 * k + j).sr && Picture(pixels[..], bmpofs) == Fast(s0, mem32, 8 * k + j).pic
          invariant beam == s0.beam.(pixel := s0.beam.pixel + clocks) && ports == s0.ports && mem32 == old(mem32)
        {
          FastNext(s0, mem32, 8 * k + j);
          var index := GetColorIndex(rpixel, false);
          rpixel := rpixel + 2;
          PutPair(ports.io.palette[index % 4], ports.io.palette[index - index % 4]);
        }
        assert 8 * (k + 1) == 8 * k + 8;
      }
      assert 8 * (clocks / 16) == clocks / 2;
      afterbrk := 0;
    }

    /** After n border pixel pairs. */
    ghost predicate BorderAt(s0: State, n: nat)
      reads this, pixels
    {
      && (n > 0 ==> sr == Fast(s0, mem32, n).sr) && sr == Fast(s0, mem32, n).sr.(column := 0)
      && bmpofs <= pixels.Length && Picture(pixels[..], bmpofs) == Fast(s0, mem32, n).pic
    }

    /** Vertical border: one colour for the whole stretch. */
    method Fill4(clocks: int, ghost t: Times) returns (afterbrk: int)
      requires FastPre(S(), config, clocks) && beam.vborder
      requires t.commit == -1 && t.palette == -1
      modifies this, pixels
      ensures var r := ReferenceFill(old(S()), old(mem32), config, clocks, t); S() == r.s && afterbrk == r.afterbrk
      ensures mem32 == old(mem32)
    {
      hide ReferenceFill, Put, Fast, ShiftIndex, ShiftLeft, FetchAddress;
      ghost var s0 := S();
      FillIsFast(s0, mem32, config, clocks, t);
      beam := beam.(pixel := beam.pixel + clocks);
      var index := GetColorIndex(0, true);
      var p := ports.io.palette[index];
      FastZero(s0, mem32);
      for k := 0 to clocks / 16
        invariant bmpofs == s0.pic.ofs + 16 * k && BorderAt(s0, 8 * k)
        invariant beam == s0.beam.(pixel := s0.beam.pixel + clocks) && ports == s0.ports && mem32 == old(mem32)
      {
        for j := 0 to 8
          invariant bmpofs == s0.pic.ofs + 16 * k + 2 * j && BorderAt(s0, 8 * k + j)
          invariant beam == s0.beam.(pixel := s0.beam.pixel + clocks) && ports == s0.ports && mem32 == old(mem32)
        {
          FastNext(s0, mem32, 8 * k + j);
          PutPair(p, p);
        }
        assert 8 * (k + 1) == 8 * k + 8;
      }
      assert 8 * (clocks / 16) == clocks / 2;
      afterbrk := 0;
    }
  }

  lemma FastZero(s: State, vram: Vram)
    ensures Fast(s, vram, 0) == s
  {
  }

  // ---- bit planes: plain shifting against the four-step permutation ----

  function OneBit(k: nat): Register { seq(32, i => i == k) }

  /** The four modeless bits as the shifting build computes them. */
  function Modeless(p: Register): Register
  {
    Or(Or(And(ShiftRight(p, 4), OneBit(3)), And(ShiftRight(p, 13), OneBit(2))),
       Or(And(ShiftRight(p, 22), OneBit(1)), And(ShiftRight(p, 31), OneBit(0))))
  }

  lemma ModelessBits(p: Register, i: nat)
    requires i < 32
    ensures Modeless(p)[i] == ((i == 3 && p[7]) || (i == 2 && p[15]) || (i == 1 && p[23]) || (i == 0 && p[31]))
  {
  }

  lemma ShiftIndexIsModeless(p: Register)
    ensures ShiftIndex(p) == NumberOf(Modeless(p)[..4])
  {
    ModelessBits(p, 0);
    ModelessBits(p, 1);
    ModelessBits(p, 2);
    ModelessBits(p, 3);
    var m := Modeless(p)[..4];
    hide Modeless;
    FourBits(m);
  }

  lemma FourBits(m: seq<bool>)
    requires |m| == 4
    ensures NumberOf(m) == Flag(m[0]) + 2 * Flag(m[1]) + 4 * Flag(m[2]) + 8 * Flag(m[3])
  {
    var a, b, c, d := m[1..], m[2..], m[3..], m[4..];
    assert a[1..] == b && b[1..] == c && c[1..] == d && d == [];
    assert a[0] == m[1] && b[0] == m[2] && c[0] == m[3];
    assert NumberOf(d) == 0;
    assert NumberOf(c) == Flag(m[3]);
    assert NumberOf(b) == Flag(m[2]) + 2 * NumberOf(c);
    assert NumberOf(a) == Flag(m[1]) + 2 * NumberOf(b);
  }

  /** bit_permute_step: bits of the mask trade places with the bits `shift` above them. */
  function BitPermuteStep(x: Register, m: Register, shift: nat): Register
    requires shift <= 32
  {
    var t := And(Xor(ShiftRight(x, shift), x), m);
    Xor(Xor(x, t), ShiftLeft(t, shift))
  }

  /** Masks 00550055, 00003333, 000F000F and 000000FF. */
  predicate Mask9(i: int) { i % 16 < 8 && i % 2 == 0 }
  predicate Mask18(i: int) { i < 16 && i % 4 < 2 }
  predicate Mask12(i: int) { i % 16 < 4 }
  predicate Mask24(i: int) { i < 8 }

  function AsRegister(m: int -> bool): Register { seq(32, i => m(i)) }

  /** fetchPixels of the USE_BIT_PERMUTE build. */
  function Grouped(p: Register): Register
  {
    var x1 := BitPermuteStep(p, AsRegister(Mask9), 9);
    var x2 := BitPermuteStep(x1, AsRegister(Mask18), 18);
    var x3 := BitPermuteStep(x2, AsRegister(Mask12), 12);
    BitPermuteStep(x3, AsRegister(Mask24), 24)
  }

  /** Where a step takes each bit from. */
  function Source(m: int -> bool, shift: int, i: int): int
  {
    if m(i) then i + shift else if i >= shift && m(i - shift) then i - shift else i
  }

  /** Masked bits have partners inside the word, and no bit is in two pairs. */
  predicate Pairs(m: int -> bool, shift: nat)
  {
    forall i | 0 <= i < 32 && m(i) :: i + shift < 32 && !m(i + shift)
  }

  lemma StepSwaps(x: Register, m: int -> bool, shift: nat, i: nat)
    requires shift <= 32 && i < 32 && Pairs(m, shift)
    ensures 0 <= Source(m, shift, i) < 32
    ensures BitPermuteStep(x, AsRegister(m), shift)[i] == x[Source(m, shift, i)]
  {
    var t := And(Xor(ShiftRight(x, shift), x), AsRegister(m));
    assert t[i] == (m(i) && (ShiftRight(x, shift)[i] != x[i]));
    RightBits(x, shift, i);
    LeftBits(t, shift, i);
    if i >= shift {
      var j := i - shift;
      RightBits(x, shift, j);
      assert t[j] == (m(j) && (ShiftRight(x, shift)[j] != x[j]));
      assert m(j) ==> !m(j + shift);
    }
  }

  lemma MasksPair()
    ensures Pairs(Mask9, 9) && Pairs(Mask18, 18) && Pairs(Mask12, 12) && Pairs(Mask24, 24)
  {
    hide Pairs;
    Pairs9();
    Pairs12();
    assert Pairs(Mask18, 18) && Pairs(Mask24, 24) by { Pairs18(); Pairs24(); }
  }

  lemma Pairs9()
    ensures Pairs(Mask9, 9)
  {
  }

  lemma Pairs18()
    ensures Pairs(Mask18, 18)
  {
  }

  lemma Pairs12()
    ensures Pairs(Mask12, 12)
  {
  }

  lemma Pairs24()
    ensures Pairs(Mask24, 24)
  {
  }

  function From(i: int): int { Source(Mask9, 9, Source(Mask18, 18, Source(Mask12, 12, Source(Mask24, 24, i)))) }

  lemma GroupedFrom(p: Register, i: nat)
    requires i < 32
    ensures 0 <= From(i) < 32 && Grouped(p)[i] == p[From(i)]
  {
    hide BitPermuteStep, Source, Pairs;
    MasksPair();
    var x1 := BitPermuteStep(p, AsRegister(Mask9), 9);
    var x2 := BitPermuteStep(x1, AsRegister(Mask18), 18);
    var x3 := BitPermuteStep(x2, AsRegister(Mask12), 12);
    StepSwaps(x3, Mask24, 24, i);
    var a := Source(Mask24, 24, i);
    StepSwaps(x2, Mask12, 12, a);
    var b := Source(Mask12, 12, a);
    StepSwaps(x1, Mask18, 18, b);
    var c := Source(Mask18, 18, b);
    StepSwaps(p, Mask9, 9, c);
  }

  /** Nibble x from the top holds bit 7-x of every plane. */
  lemma GroupedOrder(x: nat, k: nat)
    requires x < 8 && k < 4
    ensures From(31 - 4 * x - k) == 7 - x + 8 * k
  {
    hide From;
    match x {
      case 0 => Order0(k);
      case 1 => Order1(k);
      case 2 => Order2(k);
      case 3 => Order3(k);
      case 4 => Order4(k);
      case 5 => Order5(k);
      case 6 => Order6(k);
      case _ => Order7(k);
    }
  }

  lemma Order0(k: nat)
    requires k < 4
    ensures From(31 - k) == 7 + 8 * k
  {
  }

  lemma Order1(k: nat)
    requires k < 4
    ensures From(27 - k) == 6 + 8 * k
  {
  }

  lemma Order2(k: nat)
    requires k < 4
    ensures From(23 - k) == 5 + 8 * k
  {
  }

  lemma Order3(k: nat)
    requires k < 4
    ensures From(19 - k) == 4 + 8 * k
  {
  }

  lemma Order4(k: nat)
    requires k < 4
    ensures From(15 - k) == 3 + 8 * k
  {
  }

  lemma Order5(k: nat)
    requires k < 4
    ensures From(11 - k) == 2 + 8 * k
  {
  }

  lemma Order6(k: nat)
    requires k < 4
    ensures From(7 - k) == 1 + 8 * k
  {
  }

  lemma Order7(k: nat)
    requires k < 4
    ensures From(3 - k) == 0 + 8 * k
  {
  }

  /** The permutation build emits, for each of the eight pixels of every fetched word, the index that
      plain shifting emits. */
  lemma BuildsAgree(p: Register, x: nat)
    requires x < 8
    ensures ShiftRight(ShiftLeft(Grouped(p), 4 * x), 28) == Modeless(ShiftLeft(p, x))
  {
    var l, r := ShiftRight(ShiftLeft(Grouped(p), 4 * x), 28), Modeless(ShiftLeft(p, x));
    forall i | 0 <= i < 32 ensures l[i] == r[i] {
      NibbleBit(p, x, i);
    }
  }

  lemma NibbleBit(p: Register, x: nat, i: nat)
    requires x < 8 && i < 32
    ensures ShiftRight(ShiftLeft(Grouped(p), 4 * x), 28)[i] == Modeless(ShiftLeft(p, x))[i]
  {
    hide Grouped, Modeless, ShiftLeft, ShiftRight, From;
    RightBits(ShiftLeft(Grouped(p), 4 * x), 28, i);
    ModelessBits(ShiftLeft(p, x), i);
    if i < 4 {
      LeftBits(Grouped(p), 4 * x, i + 28);
      var k := 3 - i;
      GroupedFrom(p, 31 - 4 * x - k);
      GroupedOrder(x, k);
      LeftBits(p, x, 7 + 8 * k);
    }
  }
}
