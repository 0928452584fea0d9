/** Laws of the 8080 instruction set as src/i8080.cpp implements it: what opcodes undo,
    what they leave alone, and what the flag arithmetic amounts to. */
module CpuLaws {
  import opened Words
  import opened Numbers
  import opened Memory
  import opened Alu
  import opened I8080

  // ---- registers ----

  /** Registers are independent cells; 6 stands for memory at HL. */
  lemma RegisterCells(m: Machine, r: int, v: Byte, s: int)
    requires 0 <= r < 8 && 0 <= s < 8 && r != 6 && s != 6
    ensures GetReg(SetReg(m, r, v), s) == if r == s then v else GetReg(m, s)
    ensures SetReg(m, r, v).ram == m.ram && SetReg(m, r, v).cpu.flags == m.cpu.flags
    ensures SetReg(m, r, v).cpu.pc == m.cpu.pc && SetReg(m, r, v).cpu.sp == m.cpu.sp
  {
  }

  /** MOV between registers copies the source and changes nothing else. */
  lemma MovCopies(m: Machine, d: int, s: int, r: int, inp: Byte)
    requires 0 <= d < 8 && 0 <= s < 8 && d != 6 && s != 6 && 0 <= r < 8 && r != 6
    ensures var n := Switch(m, 64 + 8 * d + s, inp);
            && GetReg(n, r) == (if r == d then GetReg(m, s) else GetReg(m, r))
            && n.ram == m.ram && n.cpu.flags == m.cpu.flags && n.cpu.pc == m.cpu.pc && n.cpu.sp == m.cpu.sp
  {
    var op := 64 + 8 * d + s;
    assert op / 64 == 1 && op / 8 % 8 == d && op % 8 == s && op != 0x76;
    hide GetReg, SetReg, Quarter0, Quarter3, AluOp;
    RegisterCells(m, d, GetReg(m, s), r);
  }

  /** The stack cells below SP are ordinary memory. */
  predicate StackWritable(m: Machine)
  {
    var sp := ToWord(m.cpu.sp - 2);
    !BootHides(m.ram, sp, true) && !BootHides(m.ram, sp + 1, true)
  }

  lemma PushTop(m: Machine, w: Word)
    requires StackWritable(m)
    ensures Top(Push(m, w)) == w && Drop(Push(m, w)).cpu == m.cpu
  {
    hide Memory.ReadWord, Memory.WriteWord, BootHides;
    WordRoundTrip(m.ram, ToWord(m.cpu.sp - 2), w, true);
    assert ToWord(ToWord(m.cpu.sp - 2) + 2) == m.cpu.sp by { Wraps(m.cpu.sp); }
  }

  lemma Wraps(w: Word)
    ensures ToWord(ToWord(w - 2) + 2) == w && ToWord(ToWord(w + 1) - 1) == w && ToWord(ToWord(w - 1) + 1) == w
  {
  }

  lemma PairCells(m: Machine, p: int)
    requires 0 <= p < 3
    ensures SetPair(m, p, GetPair(m, p)) == m
  {
  }

  /** POP undoes PUSH of the same pair. */
  lemma PushPop(m: Machine, p: int)
    requires 0 <= p < 3 && StackWritable(m)
    ensures PopPair(PushPair(m, p), p).cpu == m.cpu
  {
    PushTop(m, GetPair(m, p));
    var d := Drop(Push(m, GetPair(m, p)));
    assert GetPair(d, p) == GetPair(m, p);
    PairCells(d, p);
    hide Memory.ReadWord, Memory.WriteWord, StackWritable, SetPair, GetPair, Top, Push, Drop;
  }

  /** The flags byte keeps the five flags, and bits 1, 3 and 5 read 1, 0 and 0. */
  lemma FlagsRoundTrip(f: Flags)
    ensures UnpackFlags(PackFlags(f)) == f
    ensures PackFlags(f) / 2 % 2 == 1 && PackFlags(f) / 8 % 2 == 0 && PackFlags(f) / 32 % 2 == 0
  {
    var b: int, high, low: int := PackFlags(f), 8 * f.sg + 4 * f.ze + f.hc, 4 * f.pa + 2 + f.cy;
    BitAt(b, 1, 8 * high + 2 * f.pa + 1, f.cy, 0);
    BitAt(b, 2, 4 * high + f.pa, 1, f.cy);
    BitAt(b, 4, 2 * high, f.pa, 2 + f.cy);
    BitAt(b, 8, high, 0, low);
    BitAt(b, 16, 4 * f.sg + 2 * f.ze, f.hc, low);
    BitAt(b, 32, 2 * f.sg + f.ze, 0, 16 * f.hc + low);
    BitAt(b, 64, f.sg, f.ze, 16 * f.hc + low);
    DivUnique(b, 128, f.sg, 64 * f.ze + 16 * f.hc + low);
    hide PackFlags;
  }

  /** The bit of weight w. */
  lemma BitAt(b: int, w: nat, above: int, bit: Bit, below: nat)
    requires below < w && b == w * (2 * above + bit) + below
    ensures b / w % 2 == bit
  {
    DivUnique(b, w, 2 * above + bit, below);
  }

  lemma PswRoundTrip(m: Machine)
    requires StackWritable(m)
    ensures var n := PopPair(PushPair(m, 3), 3);
            n.cpu.a == m.cpu.a && n.cpu.flags == m.cpu.flags && n.cpu.sp == m.cpu.sp
  {
    var f := PackFlags(m.cpu.flags);
    var q := m.(cpu := m.cpu.(f := f));
    PushTop(q, Pair(m.cpu.a, f));
    FlagsRoundTrip(m.cpu.flags);
    hide Memory.ReadWord, Memory.WriteWord, BootHides, PackFlags, UnpackFlags, Top, Push, Drop;
    assert Hi(Pair(m.cpu.a, f)) == m.cpu.a && Lo(Pair(m.cpu.a, f)) == f;
  }

  /** RET after CALL or RST continues behind it, with the stack pointer where it was. */
  lemma CallReturns(m: Machine, addr: Word)
    requires StackWritable(m)
    ensures Ret(Call(m)).cpu == m.cpu.(pc := ToWord(m.cpu.pc + 2))
    ensures Ret(Rst(m, addr)).cpu == m.cpu
    ensures Rst(m, addr).cpu.pc == addr
  {
    hide Memory.ReadWord, StackWritable, Push, Top, Drop;
    PushReturns(m, ToWord(m.cpu.pc + 2));
    PushReturns(m, m.cpu.pc);
  }

  lemma PushReturns(m: Machine, w: Word)
    requires StackWritable(m)
    ensures forall a: int :: Ret(Jump(Push(m, w), a)).cpu == m.cpu.(pc := w)
  {
    hide Memory.ReadWord, Memory.WriteWord, StackWritable, Push, Ret, Jump, Top, Drop;
    PushTop(m, w);
    forall a: int ensures Ret(Jump(Push(m, w), a)).cpu == m.cpu.(pc := w) {
      ReturnAnywhere(Push(m, w), a);
    }
  }

  /** Where RET goes does not depend on where it stands. */
  lemma ReturnAnywhere(m: Machine, a: int)
    ensures Ret(Jump(m, a)).cpu == Drop(m).cpu.(pc := Top(m))
  {
    hide Memory.ReadWord;
  }

  // ---- exchanges, rotations, counting ----

  /** XCHG twice is nothing, and once it swaps the pairs. */
  lemma ExchangeTwice(m: Machine, inp: Byte)
    ensures Misc(Misc(m, 5, inp), 5, inp) == m
    ensures GetPair(Misc(m, 5, inp), 1) == GetPair(m, 2) && GetPair(Misc(m, 5, inp), 2) == GetPair(m, 1)
  {
  }

  /** XTHL swaps HL with the word on the stack. */
  lemma XthlSwaps(m: Machine, inp: Byte)
    requires !BootHides(m.ram, m.cpu.sp, true) && !BootHides(m.ram, m.cpu.sp + 1, true)
    ensures var n := Misc(m, 4, inp); HL(n) == Top(m) && Top(n) == HL(m) && n.cpu.sp == m.cpu.sp
  {
    WordRoundTrip(m.ram, m.cpu.sp, HL(m), true);
    hide Memory.ReadWord, Memory.WriteWord, BootHides;
  }

  /** RRC undoes RLC, RAR undoes RAL (through the carry), CMA and CMC undo themselves. */
  lemma RotationsInvert(m: Machine)
    ensures AccOp(AccOp(m, 0), 1).cpu.a == m.cpu.a
    ensures AccOp(AccOp(m, 2), 3) == m
    ensures AccOp(AccOp(m, 5), 5) == m && AccOp(AccOp(m, 7), 7) == m
    ensures AccOp(m, 6).cpu.flags.cy == 1
  {
    hide Alu.Daa;
    var a: int := m.cpu.a;
    assert a == 128 * (a / 128) + a % 128;
    Rotated(a, a / 128);
    Rotated(a, m.cpu.flags.cy);
  }

  lemma Rotated(a: Byte, c: Bit)
    ensures var r := a % 128 * 2 + c; r < 256 && r % 2 == c && r / 2 == a % 128 && r / 2 + 128 * (a / 128) == a
  {
  }

  /** What is set can be got, in memory too where the boot overlay does not hide it. */
  lemma SetThenGet(m: Machine, r: int, v: Byte)
    requires 0 <= r < 8 && (r == 6 ==> !BootHides(m.ram, HL(m), false))
    ensures GetReg(SetReg(m, r, v), r) == v && HL(SetReg(m, 6, v)) == HL(m)
    ensures SetReg(m, r, v).cpu.flags == m.cpu.flags
    ensures r == 6 ==> !BootHides(SetReg(m, r, v).ram, HL(SetReg(m, r, v)), false)
  {
    hide ToBank, Memory.Read;
    if r == 6 {
      ReadAfterWrite(m.ram, HL(m), v, false, HL(m), false);
    }
  }

  /** INR and DCR count modulo 256 and keep the carry; each undoes the other, on registers and in memory. */
  lemma IncrementDecrement(m: Machine, r: int)
    requires 0 <= r < 8 && (r == 6 ==> !BootHides(m.ram, HL(m), false))
    ensures GetReg(Inr(m, r), r) == ToByte(GetReg(m, r) + 1) && Inr(m, r).cpu.flags.cy == m.cpu.flags.cy
    ensures GetReg(Dcr(m, r), r) == ToByte(GetReg(m, r) - 1) && Dcr(m, r).cpu.flags.cy == m.cpu.flags.cy
    ensures GetReg(Dcr(Inr(m, r), r), r) == GetReg(m, r) == GetReg(Inr(Dcr(m, r), r), r)
    ensures Inr(m, r).cpu.flags.ze == Flag(GetReg(m, r) == 255) && Dcr(m, r).cpu.flags.ze == Flag(GetReg(m, r) == 1)
  {
    hide GetReg, SetReg, Parity, BootHides, ToByte;
    var v := GetReg(m, r);
    CountsBack(v);
    OneCount(m, r);
    var up, down := Inr(m, r), Dcr(m, r);
    OneCount(up, r);
    OneCount(down, r);
  }

  /** One count: the value, the flags that stay, and that the cell is still the same one. */
  lemma OneCount(m: Machine, r: int)
    requires 0 <= r < 8 && (r == 6 ==> !BootHides(m.ram, HL(m), false))
    ensures var n := Inr(m, r);
            && GetReg(n, r) == ToByte(GetReg(m, r) + 1) && n.cpu.flags.cy == m.cpu.flags.cy
            && n.cpu.flags.ze == Flag(ToByte(GetReg(m, r) + 1) == 0) && (r == 6 ==> !BootHides(n.ram, HL(n), false))
    ensures var n := Dcr(m, r);
            && GetReg(n, r) == ToByte(GetReg(m, r) - 1) && n.cpu.flags.cy == m.cpu.flags.cy
            && n.cpu.flags.ze == Flag(ToByte(GetReg(m, r) - 1) == 0) && (r == 6 ==> !BootHides(n.ram, HL(n), false))
  {
    hide SetReg, Parity, BootHides;
    SetThenGet(m, r, ToByte(GetReg(m, r) + 1));
    SetThenGet(m, r, ToByte(GetReg(m, r) - 1));
  }

  lemma CountsBack(v: Byte)
    ensures ToByte(ToByte(v + 1) - 1) == v && ToByte(ToByte(v - 1) + 1) == v
    ensures (ToByte(v + 1) == 0 <==> v == 255) && (ToByte(v - 1) == 0 <==> v == 1)
  {
    assert ToByte(v + 1) == if v == 255 then 0 else v + 1;
    assert ToByte(v - 1) == if v == 0 then 255 else v - 1;
  }

  /** DAD is 16-bit addition with carry out; the other flags stay. */
  lemma DadAdds(m: Machine, w: Word)
    ensures var n := Dad(m, w);
            && HL(n) + 65536 * n.cpu.flags.cy == HL(m) + w
            && n.cpu.flags == m.cpu.flags.(cy := n.cpu.flags.cy) && n.cpu.a == m.cpu.a
  {
    var s := HL(m) + w;
    assert s == 65536 * (s / 65536) + s % 65536 && 0 <= s / 65536 <= 1;
    assert Pair(Hi(ToWord(s)), Lo(ToWord(s))) == ToWord(s);
  }

  /** What SHLD stores LHLD loads, and the same for STA and LDA. */
  lemma StoreLoad(m: Machine)
    requires var a := Imm16(m); !BootHides(m.ram, a, false) && !BootHides(m.ram, a + 1, false)
    ensures var a := Imm16(m);
            && ReadWord(LoadStore(m, 4).ram, a, false) == HL(m)
            && Read(LoadStore(m, 6).ram, a, false) == m.cpu.a
            && HL(LoadStore(m, 5)) == ReadWord(m.ram, a, false)
            && LoadStore(m, 7).cpu.a == Read(m.ram, a, false)
  {
    var a := Imm16(m);
    WordRoundTrip(m.ram, a, HL(m), false);
    ReadAfterWrite(m.ram, a, m.cpu.a, false, a, false);
    hide Memory.ReadWord, Memory.WriteWord, Memory.Read, Memory.Write, BootHides;
    var w := ReadWord(m.ram, a, false);
    assert Pair(Hi(w), Lo(w)) == w;
  }
}
