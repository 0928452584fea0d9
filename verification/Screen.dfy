/** What the processor writes is what the raster draws: the colour index of every pixel, from the four
    bytes at 8000, A000, C000 and E000 (src/memory.cpp, src/filler.cpp). */
module Screen {
  import opened Words
  import opened Bits
  import opened Memory
  import opened Raster
  import opened Frame

  type Column = x: int | 0 <= x < 8

  /** Bit 7-x of a byte: pixel x from the left. */
  function PixelBit(b: Byte, x: Column): bool { BitsOf(b, 8)[7 - x] }

  /** Plane 0 gives the highest bit of the index. */
  function IndexOf(b0: Byte, b1: Byte, b2: Byte, b3: Byte, x: Column): Nibble
  {
    8 * Flag(PixelBit(b0, x)) + 4 * Flag(PixelBit(b1, x)) + 2 * Flag(PixelBit(b2, x)) + Flag(PixelBit(b3, x))
  }

  lemma WordIndex(b0: Byte, b1: Byte, b2: Byte, b3: Byte, x: Column)
    ensures ShiftIndex(ShiftLeft(Le32(b0, b1, b2, b3), x)) == IndexOf(b0, b1, b2, b3, x)
  {
    hide BitsOf, ShiftLeft;
    var w := Le32(b0, b1, b2, b3);
    LeftBits(w, x, 7);
    LeftBits(w, x, 15);
    LeftBits(w, x, 23);
    LeftBits(w, x, 31);
    assert w[7 - x] == BitsOf(b0, 8)[7 - x] && w[15 - x] == BitsOf(b1, 8)[7 - x];
    assert w[23 - x] == BitsOf(b2, 8)[7 - x] && w[31 - x] == BitsOf(b3, 8)[7 - x];
  }

  // ---- the raster's own sequence ----

  /** The shift register before pixel x of a group that starts with a fetch at rpixel. */
  function Before(sr: ShiftReg, vram: Vram, rpixel: int, row: int, x: nat): ShiftReg
  {
    if x == 0 then sr else ColorIndex(Before(sr, vram, rpixel, row, x - 1), vram, rpixel + 2 * (x - 1), row, false, 0).0
  }

  lemma {:induction false} GroupShifts(sr: ShiftReg, vram: Vram, rpixel: int, row: int, x: nat)
    requires rpixel % 16 == 0 && 0 < x <= 8
    ensures Before(sr, vram, rpixel, row, x)
            == ShiftReg(ShiftLeft(vram[FetchAddress(sr.column, row)], x), sr.column + 1)
  {
    hide FetchAddress, ShiftLeft;
    if x == 1 {
      assert Before(sr, vram, rpixel, row, 0) == sr;
      LeftOnce(vram[FetchAddress(sr.column, row)], 0);
    } else {
      GroupShifts(sr, vram, rpixel, row, x - 1);
      LeftOnce(vram[FetchAddress(sr.column, row)], x - 1);
      assert (rpixel + 2 * (x - 1)) % 16 == 2 * (x - 1) != 0;
    }
  }

  lemma GroupIndex(sr: ShiftReg, vram: Vram, rpixel: int, row: int, x: Column)
    requires rpixel % 16 == 0
    ensures ColorIndex(Before(sr, vram, rpixel, row, x), vram, rpixel + 2 * x, row, false, 0).1
            == ShiftIndex(ShiftLeft(vram[FetchAddress(sr.column, row)], x))
  {
    hide FetchAddress, ShiftLeft, ShiftIndex;
    if x == 0 {
      assert Before(sr, vram, rpixel, row, 0) == sr;
      LeftOnce(vram[FetchAddress(sr.column, row)], 0);
    } else {
      GroupShifts(sr, vram, rpixel, row, x);
      assert (rpixel + 2 * x) % 16 == 2 * x != 0;
    }
  }

  // ---- memory ----

  /** The byte of plane k behind screen column col and row, as the processor reads it with paging and boot
      overlay out of the way. */
  function PlaneByte(m: Ram, col: int, row: int, k: int): Byte
    requires 0 <= col < 32 && 0 <= row < 256 && 0 <= k < 4
  {
    Read(m.(modeMap := false, modeStack := false, boot := []), 0x8000 + 0x2000 * k + 256 * col + row, false)
  }

  lemma PlaneInRam(m: Ram, col: int, row: int, k: int)
    requires 0 <= col < 32 && 0 <= row < 256 && 0 <= k < 4
    ensures m.bytes[4 * (0x2000 + 256 * col + row) + k] == PlaneByte(m, col, row, k)
  {
    hide ToBank;
    VideoLane(col, row, k);
  }

  /** With the real paging the processor reads that very byte wherever its address is neither redirected
      nor hidden. */
  lemma PlaneIsRead(m: Ram, col: int, row: int, k: int)
    requires 0 <= col < 32 && 0 <= row < 256 && 0 <= k < 4
    requires var a := 0x8000 + 0x2000 * k + 256 * col + row; BigramSelect(m, a, false) == a && a >= |m.boot|
    ensures Read(m, 0x8000 + 0x2000 * k + 256 * col + row, false) == PlaneByte(m, col, row, k)
  {
    hide ToBank;
  }

  lemma WordAt(m: Ram, col: int, row: int)
    requires 0 <= col < 32 && 0 <= row < 256
    ensures VramOf(m)[FetchAddress(col, row)]
            == Le32(PlaneByte(m, col, row, 0), PlaneByte(m, col, row, 1), PlaneByte(m, col, row, 2),
              PlaneByte(m, col, row, 3))
  {
    hide Le32, PlaneByte;
    var i := 0x2000 + 256 * col + row;
    assert FetchAddress(col, row) == i;
    PlaneInRam(m, col, row, 0);
    PlaneInRam(m, col, row, 1);
    PlaneInRam(m, col, row, 2);
    PlaneInRam(m, col, row, 3);
  }

  /** Pixel x of the group fetched at column col and row has the colour index that bit 7-x of the four
      plane bytes spells. */
  lemma PixelColour(m: Ram, sr: ShiftReg, rpixel: int, row: int, x: Column)
    requires rpixel % 16 == 0 && 0 <= sr.column < 32 && 0 <= row < 256
    ensures ColorIndex(Before(sr, VramOf(m), rpixel, row, x), VramOf(m), rpixel + 2 * x, row, false, 0).1
            == IndexOf(PlaneByte(m, sr.column, row, 0), PlaneByte(m, sr.column, row, 1),
                       PlaneByte(m, sr.column, row, 2), PlaneByte(m, sr.column, row, 3), x)
  {
    hide VramOf, FetchAddress, ShiftIndex, Le32, PlaneByte, IndexOf, ColorIndex, Before;
    GroupIndex(sr, VramOf(m), rpixel, row, x);
    WordAt(m, sr.column, row);
    WordIndex(PlaneByte(m, sr.column, row, 0), PlaneByte(m, sr.column, row, 1),
              PlaneByte(m, sr.column, row, 2), PlaneByte(m, sr.column, row, 3), x);
  }
}
