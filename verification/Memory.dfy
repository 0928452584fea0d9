/** The 64K main RAM plus the 256K RAM disk (src/memory.cpp): paging, the bank
    interleave that lets the raster fetch four bit planes at once, and the boot
    ROM overlay. */
module Memory {
  import opened Words

  const TOTAL_MEMORY := 0x50000

  type Bytes = s: seq<Byte> | |s| == TOTAL_MEMORY witness seq(TOTAL_MEMORY, _ => 0)

  /** page_map and page_stack after a control write: 1..4 in units of 64K; 0 before any. */
  type Page = x: int | 0 <= x < 5

  datatype Ram = Ram(bytes: Bytes, modeStack: bool, modeMap: bool,
                     pageMap: Page, pageStack: Page, boot: seq<Byte>)

  function ControlWrite(m: Ram, w8: Byte): Ram
  {
    m.(modeStack := w8 / 16 % 2 == 1, modeMap := w8 / 32 % 2 == 1,
       pageMap := w8 % 4 + 1, pageStack := w8 / 4 % 4 + 1)
  }

  function BigramSelect(m: Ram, addr: Word, stackrq: bool): (r: int)
    ensures 0 <= r < TOTAL_MEMORY
  {
    if !(m.modeMap || m.modeStack) then addr
    else if m.modeStack && stackrq then addr + 0x10000 * m.pageStack
    else if m.modeMap && 0xa000 <= addr < 0xe000 then addr + 0x10000 * m.pageMap
    else addr
  }

  /** Within every 32K, address bits 14..13 become the byte lane and bits 12..0 the lane row. */
  function ToBank(a: int): (r: int)
    requires 0 <= a < TOTAL_MEMORY
    ensures 0 <= r < TOTAL_MEMORY
  {
    a / 0x8000 * 0x8000 + a % 0x2000 * 4 + a / 0x2000 % 4
  }

  function FromBank(p: int): (r: int)
    requires 0 <= p < TOTAL_MEMORY
    ensures 0 <= r < TOTAL_MEMORY
  {
    p / 0x8000 * 0x8000 + p % 4 * 0x2000 + p / 4 % 0x2000
  }

  predicate BootHides(m: Ram, addr: int, stackrq: bool)
  {
    BigramSelect(m, addr % 65536, stackrq) < |m.boot|
  }

  function Read(m: Ram, addr: int, stackrq: bool): Byte
  {
    var big := BigramSelect(m, ToWord(addr), stackrq);
    if big < |m.boot| then m.boot[big] else m.bytes[ToBank(big)]
  }

  function Write(m: Ram, addr: int, w8: Byte, stackrq: bool): Ram
  {
    m.(bytes := m.bytes[ToBank(BigramSelect(m, ToWord(addr), stackrq)) := w8])
  }

  function ReadWord(m: Ram, addr: int, stackrq: bool): Word
  {
    Pair(Read(m, addr + 1, stackrq), Read(m, addr, stackrq))
  }

  function WriteWord(m: Ram, addr: int, w: Word, stackrq: bool): Ram
  {
    Write(Write(m, addr, Lo(w), stackrq), addr + 1, Hi(w), stackrq)
  }

  // ---- the bank map is a bijection ----

  /** The map in terms of bank h, lane q and row r. */
  lemma BankOf(h: int, q: int, r: int)
    requires 0 <= h < 10 && 0 <= q < 4 && 0 <= r < 0x2000
    ensures ToBank(h * 0x8000 + q * 0x2000 + r) == h * 0x8000 + r * 4 + q
  {
    var a := h * 0x8000 + q * 0x2000 + r;
    assert a / 0x2000 == 4 * h + q;
  }

  lemma UnbankOf(h: int, q: int, r: int)
    requires 0 <= h < 10 && 0 <= q < 4 && 0 <= r < 0x2000
    ensures FromBank(h * 0x8000 + r * 4 + q) == h * 0x8000 + q * 0x2000 + r
  {
    var p := h * 0x8000 + r * 4 + q;
    assert p / 4 == h * 0x2000 + r;
  }

  /** Any address splits into bank, quotient and remainder by a lane size. */
  lemma Split(a: int, k: int) returns (h: int, q: int, r: int)
    requires 0 <= a < TOTAL_MEMORY
    requires k == 4 || k == 0x2000
    ensures 0 <= h < 10 && 0 <= q < 0x8000 / k && 0 <= r < k
    ensures a == h * 0x8000 + q * k + r
  {
    h, q, r := a / 0x8000, a % 0x8000 / k, a % 0x8000 % k;
  }

  lemma ToBankInverse(a: int)
    requires 0 <= a < TOTAL_MEMORY
    ensures FromBank(ToBank(a)) == a
    ensures ToBank(FromBank(a)) == a
  {
    hide ToBank, FromBank;
    var h, q, r := Split(a, 0x2000);
    BankOf(h, q, r);
    UnbankOf(h, q, r);
    var h', r', q' := Split(a, 4);
    UnbankOf(h', q', r');
    BankOf(h', q', r');
  }

  /** The raster's 32-bit fetch for screen column col and row sees, in byte lane k, the byte
      the processor addresses as 8000 + 2000*k + 256*col + row (hexadecimal bases). */
  lemma VideoLane(col: int, row: int, k: int)
    requires 0 <= col < 32 && 0 <= row < 256 && 0 <= k < 4
    ensures 4 * (0x2000 + 256 * col + row) + k == ToBank(0x8000 + 0x2000 * k + 256 * col + row)
  {
    BankOf(1, k, 256 * col + row);
  }

  // ---- reads obey the write law through paging ----

  lemma CellLaw(bytes: Bytes, b: int, b': int, w8: Byte)
    requires 0 <= b < TOTAL_MEMORY && 0 <= b' < TOTAL_MEMORY
    ensures bytes[ToBank(b) := w8][ToBank(b')] == if b == b' then w8 else bytes[ToBank(b')]
  {
    hide ToBank, FromBank;
    ToBankInverse(b);
    ToBankInverse(b');
  }

  lemma ReadAfterWrite(m: Ram, addr: int, w8: Byte, wstack: bool, addr': int, rstack: bool)
    ensures var big := BigramSelect(m, ToWord(addr), wstack);
            var big' := BigramSelect(m, ToWord(addr'), rstack);
            Read(Write(m, addr, w8, wstack), addr', rstack) ==
            if big == big' && big' >= |m.boot| then w8 else Read(m, addr', rstack)
  {
    hide ToBank, ToWord;
    CellLaw(m.bytes, BigramSelect(m, ToWord(addr), wstack), BigramSelect(m, ToWord(addr'), rstack), w8);
  }

  /** Two different 16-bit addresses under the same request kind never share a cell. */
  lemma SelectInjective(m: Ram, a: Word, b: Word, stackrq: bool)
    requires BigramSelect(m, a, stackrq) == BigramSelect(m, b, stackrq)
    ensures a == b
  {
  }

  /** A pushed word reads back, unless the boot overlay hides the cells. */
  lemma WordRoundTrip(m: Ram, addr: int, w: Word, stackrq: bool)
    requires !BootHides(m, addr, stackrq) && !BootHides(m, addr + 1, stackrq)
    ensures ReadWord(WriteWord(m, addr, w, stackrq), addr, stackrq) == w
  {
    hide ToBank;
    var m1 := Write(m, addr, Lo(w), stackrq);
    ReadAfterWrite(m, addr, Lo(w), stackrq, addr, stackrq);
    ReadAfterWrite(m1, addr + 1, Hi(w), stackrq, addr, stackrq);
    ReadAfterWrite(m1, addr + 1, Hi(w), stackrq, addr + 1, stackrq);
  }

  // ---- switching pages ----

  predicate StackMode(w8: Byte) { w8 / 16 % 2 == 1 }

  predicate MapMode(w8: Byte) { w8 / 32 % 2 == 1 }

  predicate InWindow(a: Word) { 0xa000 <= a < 0xe000 }

  /** The bank of 64K a request goes to under a control byte: 0 is main memory, 1 to 4 the RAM disk. */
  function BankFor(w8: Byte, a: Word, stackrq: bool): int
  {
    if StackMode(w8) && stackrq then w8 / 4 % 4 + 1 else if MapMode(w8) && InWindow(a) then w8 % 4 + 1 else 0
  }

  lemma BankSelects(m: Ram, w8: Byte, a: Word, stackrq: bool)
    ensures BigramSelect(ControlWrite(m, w8), a, stackrq) == a + 0x10000 * BankFor(w8, a, stackrq)
  {
  }

  /** What is written under one control byte is seen under another exactly at the same address in the same
      bank; every other byte reads as if nothing had been written. */
  lemma PageSwitch(m: Ram, w: Byte, a: Word, v: Byte, s: bool, w': Byte, b: Word, s': bool)
    ensures var written := ControlWrite(Write(ControlWrite(m, w), a, v, s), w');
            Read(written, b, s') ==
              if a == b && BankFor(w, a, s) == BankFor(w', b, s') && b + 0x10000 * BankFor(w', b, s') >= |m.boot| then v
              else Read(ControlWrite(m, w'), b, s')
  {
    hide ToBank, BigramSelect, BankFor, ControlWrite;
    var c := ControlWrite(m, w);
    var n := Write(c, a, v, s);
    BankSelects(m, w, a, s);
    BankSelects(m, w', b, s');
    BankSelects(n, w', b, s');
    ControlKeeps(m, w);
    ControlKeeps(m, w');
    ControlKeeps(n, w');
    assert ToWord(a) == a && ToWord(b) == b;
    BankRange(w, a, s);
    BankRange(w', b, s');
    CellLaw(m.bytes, a + 0x10000 * BankFor(w, a, s), b + 0x10000 * BankFor(w', b, s'), v);
  }

  lemma ControlKeeps(m: Ram, w8: Byte)
    ensures ControlWrite(m, w8).bytes == m.bytes && ControlWrite(m, w8).boot == m.boot
  {
  }

  lemma BankRange(w8: Byte, a: Word, stackrq: bool)
    ensures 0 <= BankFor(w8, a, stackrq) <= 4 && 0 <= a + 0x10000 * BankFor(w8, a, stackrq) < TOTAL_MEMORY
  {
  }

  // ---- the object ----

  /** class Memory: the byte array is updated in place. */
  class MemoryUnit {
    const bytes: array<Byte>
    var modeStack: bool
    var modeMap: bool
    var pageMap: Page
    var pageStack: Page
    var boot: seq<Byte>

    ghost predicate Valid()
      reads this
    {
      bytes.Length == TOTAL_MEMORY
    }

    ghost function Abs(): Ram
      reads this, bytes
      requires Valid()
    {
      Ram(bytes[..], modeStack, modeMap, pageMap, pageStack, boot)
    }

    constructor ()
      ensures Valid() && fresh(bytes) && boot == [] && !modeStack && !modeMap && pageMap == pageStack == 0
      ensures forall i | 0 <= i < bytes.Length :: bytes[i] == 0
    {
      bytes := new Byte[TOTAL_MEMORY](_ => 0);
      modeStack, modeMap, pageMap, pageStack, boot := false, false, 0, 0, [];
    }

    method SetControl(w8: Byte)
      requires Valid()
      modifies this`modeStack, this`modeMap, this`pageMap, this`pageStack
      ensures Valid() && Abs() == ControlWrite(old(Abs()), w8)
    {
      modeStack, modeMap := w8 / 16 % 2 == 1, w8 / 32 % 2 == 1;
      pageMap, pageStack := w8 % 4 + 1, w8 / 4 % 4 + 1;
    }

    method Load(addr: int, stackrq: bool) returns (value: Byte)
      requires Valid()
      ensures value == Read(Abs(), addr, stackrq)
    {
      hide ToBank;
      var big := Select(ToWord(addr), stackrq);
      if |boot| > 0 && big < |boot| {
        value := boot[big];
      } else {
        value := bytes[ToBank(big)];
      }
    }

    method Select(addr: Word, stackrq: bool) returns (r: int)
      requires Valid()
      ensures r == BigramSelect(Abs(), addr, stackrq)
    {
      if !(modeMap || modeStack) {
        return addr;
      } else if modeStack && stackrq {
        return addr + 0x10000 * pageStack;
      } else if modeMap && addr >= 0xa000 && addr < 0xe000 {
        return addr + 0x10000 * pageMap;
      }
      return addr;
    }

    method Store(addr: int, w8: Byte, stackrq: bool)
      requires Valid()
      modifies bytes
      ensures Valid() && Abs() == Write(old(Abs()), addr, w8, stackrq)
    {
      hide ToBank;
      var big := Select(ToWord(addr), stackrq);
      bytes[ToBank(big)] := w8;
    }
  }
}
