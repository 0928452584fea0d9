/** The 8080 core in the form src/i8080.cpp has it: one structure whose registers the macros and
    the opcode switch update in place. Every method is proved against its function in I8080. */
module Processor {
  import opened Words
  import opened Memory
  import opened Alu
  import opened I8080

  class Core {
    var a: Byte
    var b: Byte
    var c: Byte
    var d: Byte
    var e: Byte
    var h: Byte
    var l: Byte
    var f: Byte
    var flags: Flags
    var sp: Word
    var pc: Word
    var iff: bool
    var eiPending: EiCount
    var ram: Ram
    var inte: bool
    var irq: bool
    var outPort: int
    var outByte: Byte

    function Abs(): Machine
      reads this
    {
      Machine(Cpu(a, b, c, d, e, h, l, f, flags, sp, pc, iff, eiPending), ram, inte, irq, outPort, outByte)
    }

    // ---- registers and memory ----

    method Register(r: int) returns (v: Byte)
      requires 0 <= r < 8
      ensures v == GetReg(Abs(), r)
    {
      match r {
        case 0 => v := b;
        case 1 => v := c;
        case 2 => v := d;
        case 3 => v := e;
        case 4 => v := h;
        case 5 => v := l;
        case 6 => v := Read(ram, Pair(h, l), false);
        case _ => v := a;
      }
    }

    method SetRegister(r: int, v: Byte)
      requires 0 <= r < 8
      modifies this`a, this`b, this`c, this`d, this`e, this`h, this`l, this`ram
      ensures Abs() == SetReg(old(Abs()), r, v)
    {
      hide Memory.Write;
      match r {
        case 0 => b := v;
        case 1 => c := v;
        case 2 => d := v;
        case 3 => e := v;
        case 4 => h := v;
        case 5 => l := v;
        case 6 => ram := Write(ram, Pair(h, l), v, false);
        case _ => a := v;
      }
    }

    method RegisterPair(p: int) returns (w: Word)
      requires 0 <= p < 4
      ensures w == GetPair(Abs(), p)
    {
      match p {
        case 0 => w := Pair(b, c);
        case 1 => w := Pair(d, e);
        case 2 => w := Pair(h, l);
        case _ => w := sp;
      }
    }

    method SetRegisterPair(p: int, w: Word)
      requires 0 <= p < 4
      modifies this`b, this`c, this`d, this`e, this`h, this`l, this`sp
      ensures Abs() == SetPair(old(Abs()), p, w)
    {
      match p {
        case 0 => b, c := Hi(w), Lo(w);
        case 1 => d, e := Hi(w), Lo(w);
        case 2 => h, l := Hi(w), Lo(w);
        case _ => sp := w;
      }
    }

    /** RD_BYTE(PC++). */
    method FetchByte() returns (v: Byte)
      modifies this`pc
      ensures v == Imm8(old(Abs())) && Abs() == Skip(old(Abs()), 1)
    {
      v := Read(ram, pc, false);
      pc := ToWord(pc + 1);
    }

    /** RD_WORD(PC), PC += 2. */
    method FetchWord() returns (w: Word)
      modifies this`pc
      ensures w == Imm16(old(Abs())) && Abs() == Skip(old(Abs()), 2)
    {
      w := ReadWord(ram, pc, false);
      pc := ToWord(pc + 2);
    }

    // ---- stack ----

    method PushWord(w: Word)
      modifies this`sp, this`ram
      ensures Abs() == Push(old(Abs()), w)
    {
      hide Memory.WriteWord;
      sp := ToWord(sp - 2);
      ram := WriteWord(ram, sp, w, true);
    }

    method PopWord() returns (w: Word)
      modifies this`sp
      ensures w == Top(old(Abs())) && Abs() == Drop(old(Abs()))
    {
      w := ReadWord(ram, sp, true);
      sp := ToWord(sp + 2);
    }

    method DoReturn()
      modifies this`sp, this`pc
      ensures Abs() == Ret(old(Abs()))
    {
      hide Memory.ReadWord;
      pc := PopWord();
    }

    method DoCall()
      modifies this`sp, this`ram, this`pc
      ensures Abs() == Call(old(Abs()))
    {
      hide Memory.ReadWord, Memory.WriteWord;
      PushWord(ToWord(pc + 2));
      pc := ReadWord(ram, pc, true);
    }

    method DoRestart(addr: Word)
      modifies this`sp, this`ram, this`pc
      ensures Abs() == Rst(old(Abs()), addr)
    {
      hide Memory.WriteWord;
      PushWord(pc);
      pc := addr;
    }

    // ---- arithmetic ----

    /** The common tail of the macros: work16 into A and the flags. */
    method SetResult(work16: Word, hc: Bit)
      modifies this`a, this`flags
      ensures a == Result(work16, hc).a && flags == Result(work16, hc).f
    {
      hide Parity;
      a := work16 % 256;
      flags := Flags(work16 / 256 % 2, Parity(a), hc, Flag(a == 0), Flag(a >= 128));
    }

    /** ADD and ADC. */
    method AddToA(val: Byte, carry: Bit)
      modifies this`a, this`flags
      ensures a == Add(old(a), val, carry).a && flags == Add(old(a), val, carry).f
    {
      hide Result, Bit3;
      var work16: Word := a + val + carry;
      var index := 4 * Bit3(a) + 2 * Bit3(val) + Bit3(work16);
      SetResult(work16, HALF_CARRY[index]);
    }

    /** SUB, SBB and CMP, which keeps A. */
    method SubFromA(val: Byte, carry: Bit, keep: bool)
      modifies this`a, this`flags
      ensures a == (if keep then old(a) else Sub(old(a), val, carry).a) && flags == Sub(old(a), val, carry).f
    {
      hide Result, Bit3;
      var before := a;
      var work16: Word := ToWord(a - val - carry);
      var index := 4 * Bit3(a) + 2 * Bit3(val) + Bit3(work16);
      SetResult(work16, 1 - SUB_HALF_CARRY[index]);
      if keep {
        a := before;
      }
    }

    method Arithmetic(y: int, v: Byte)
      requires 0 <= y < 8
      modifies this`a, this`flags
      ensures Abs() == AluOp(old(Abs()), y, v)
    {
      hide Add, Sub, And, Xor, Or;
      match y {
        case 0 => AddToA(v, 0);
        case 1 => AddToA(v, flags.cy);
        case 2 => SubFromA(v, 0, false);
        case 3 => SubFromA(v, flags.cy, false);
        case 4 => var o := And(a, v); a, flags := o.a, o.f;
        case 5 => var o := Xor(a, v); a, flags := o.a, o.f;
        case 6 => var o := Or(a, v); a, flags := o.a, o.f;
        case _ => SubFromA(v, 0, true);
      }
    }

    method Increment(r: int, up: bool)
      requires 0 <= r < 8
      modifies this`a, this`b, this`c, this`d, this`e, this`h, this`l, this`ram, this`flags
      ensures Abs() == if up then Inr(old(Abs()), r) else Dcr(old(Abs()), r)
    {
      hide Parity, GetReg, SetReg;
      var x: int := Register(r);
      var v := if up then ToByte(x + 1) else ToByte(x - 1);
      SetKeepsFlags(Abs(), r, v);
      SetRegister(r, v);
      flags := Flags(flags.cy, Parity(v), if up then Flag(v % 16 == 0) else Flag(v % 16 != 15),
                     Flag(v == 0), Flag(v >= 128));
    }

    method Accumulator(y: int)
      requires 0 <= y < 8
      modifies this`a, this`flags
      ensures Abs() == AccOp(old(Abs()), y)
    {
      hide Alu.Daa;
      var carry := flags.cy;
      match y {
        case 0 => flags := flags.(cy := a / 128); a := a % 128 * 2 + flags.cy;
        case 1 => flags := flags.(cy := a % 2); a := a / 2 + 128 * flags.cy;
        case 2 => flags := flags.(cy := a / 128); a := a % 128 * 2 + carry;
        case 3 => flags := flags.(cy := a % 2); a := (if carry == 1 then 128 else 0) + a / 2;
        case 4 => DecimalAdjust();
        case 5 => a := 255 - a;
        case 6 => flags := flags.(cy := 1);
        case _ => flags := flags.(cy := 1 - carry);
      }
    }

    method DecimalAdjust()
      modifies this`a, this`flags
      ensures a == Daa(old(a), old(flags)).a && flags == Daa(old(a), old(flags)).f
    {
      hide Add;
      var carry := flags.cy;
      var add: Byte := 0;
      if flags.hc == 1 || a % 16 > 9 {
        add := 6;
      }
      if flags.cy == 1 || a / 16 > 9 || (a / 16 >= 9 && a % 16 > 9) {
        add := add + 0x60;
        carry := 1;
      }
      AddToA(add, 0);
      flags := flags.(cy := carry);
    }

    method DoubleAdd(w: Word)
      modifies this`h, this`l, this`flags
      ensures Abs() == Dad(old(Abs()), w)
    {
      var work32: int := Pair(h, l) + w;
      h, l := Hi(ToWord(work32)), Lo(ToWord(work32));
      flags := flags.(cy := work32 / 65536);
    }

    // ---- the opcode switch ----

    method Transfer(y: int)
      requires 0 <= y < 8
      modifies this`a, this`h, this`l, this`pc, this`ram
      ensures Abs() == LoadStore(old(Abs()), y)
    {
      hide Memory.Read, Memory.Write, Memory.ReadWord, Memory.WriteWord;
      match y {
        case 0 => ram := Write(ram, Pair(b, c), a, false);
        case 1 => a := Read(ram, Pair(b, c), false);
        case 2 => ram := Write(ram, Pair(d, e), a, false);
        case 3 => a := Read(ram, Pair(d, e), false);
        case 4 => var w := FetchWord(); ram := WriteWord(ram, w, Pair(h, l), false);
        case 5 => var w := FetchWord(); var v := ReadWord(ram, w, false); h, l := Hi(v), Lo(v);
        case 6 => var w := FetchWord(); ram := Write(ram, w, a, false);
        case _ => var w := FetchWord(); a := Read(ram, w, false);
      }
    }

    /** Opcodes 00..3F. */
    method LowQuarter(y: int, z: int)
      requires 0 <= y < 8 && 0 <= z < 8
      modifies this`a, this`b, this`c, this`d, this`e, this`h, this`l, this`flags, this`sp, this`pc, this`ram
      ensures Abs() == Quarter0(old(Abs()), y, z)
    {
      hide Memory.Read, Memory.ReadWord, GetPair, SetPair, SetReg, Dad, LoadStore, Inr, Dcr, AccOp, Imm8, Imm16;
      match z {
        case 0 =>
        case 1 =>
          if y % 2 == 0 {
            SetPairSkips(Abs(), y / 2, Imm16(Abs()));
            var w := FetchWord();
            SetRegisterPair(y / 2, w);
          } else {
            var w := RegisterPair(y / 2);
            DoubleAdd(w);
          }
        case 2 => Transfer(y);
        case 3 =>
          var w: int := RegisterPair(y / 2);
          SetRegisterPair(y / 2, if y % 2 == 0 then ToWord(w + 1) else ToWord(w - 1));
        case 4 => Increment(y, true);
        case 5 => Increment(y, false);
        case 6 =>
          SetRegSkips(Abs(), y, Imm8(Abs()));
          var v := FetchByte();
          SetRegister(y, v);
        case _ => Accumulator(y);
      }
    }

    method PopTo(p: int)
      requires 0 <= p < 4
      modifies this`a, this`b, this`c, this`d, this`e, this`h, this`l, this`f, this`flags, this`sp
      ensures Abs() == PopPair(old(Abs()), p)
    {
      hide UnpackFlags, Top;
      var w := PopWord();
      if p < 3 {
        SetRegisterPair(p, w);
      } else {
        a, f := Hi(w), Lo(w);
        flags := UnpackFlags(f);
      }
    }

    method PushFrom(p: int)
      requires 0 <= p < 4
      modifies this`f, this`sp, this`ram
      ensures Abs() == PushPair(old(Abs()), p)
    {
      hide Push, PackFlags;
      if p < 3 {
        var w := RegisterPair(p);
        PushWord(w);
      } else {
        f := PackFlags(flags);
        PushWord(Pair(a, f));
      }
    }

    /** i8080_hal_iff and Board::interrupt. */
    method Lines(on: bool)
      modifies this`inte, this`irq
      ensures Abs() == SetInte(old(Abs()), on)
    {
      inte := on;
      irq := irq && on;
    }

    /** OUT: the port and the byte wait in the latch. */
    method Output()
      modifies this`outPort, this`outByte, this`pc
      ensures Abs() == Misc(old(Abs()), 2, 0)
    {
      hide Memory.Read;
      outByte := a;
      outPort := FetchByte();
    }

    /** XTHL. */
    method ExchangeTop()
      modifies this`h, this`l, this`ram
      ensures Abs() == Misc(old(Abs()), 4, 0)
    {
      hide Memory.ReadWord, Memory.WriteWord;
      var w := ReadWord(ram, sp, true);
      ram := WriteWord(ram, sp, Pair(h, l), true);
      h, l := Hi(w), Lo(w);
    }

    /** DI and EI: EI raises INTE at once and the internal flag two instructions later. */
    method Enable(on: bool)
      modifies this`iff, this`eiPending, this`inte, this`irq
      ensures Abs() == Misc(old(Abs()), if on then 7 else 6, 0)
    {
      iff, eiPending := false, if on then 2 else 0;
      Lines(on);
    }

    method Miscellaneous(y: int, inp: Byte)
      requires 0 <= y < 8
      modifies this
      ensures Abs() == Misc(old(Abs()), y, inp)
    {
      hide Memory.Read, Memory.ReadWord, Memory.WriteWord;
      match y {
        case 0 => pc := ReadWord(ram, pc, false);
        case 1 => pc := ReadWord(ram, pc, false);
        case 2 => Output();
        case 3 => a, pc := inp, ToWord(pc + 1);
        case 4 => ExchangeTop();
        case 5 => d, e, h, l := h, l, d, e;
        case 6 => Enable(false);
        case _ => Enable(true);
      }
    }

    /** Opcodes C0..FF. */
    method HighQuarter(y: int, z: int, inp: Byte)
      requires 0 <= y < 8 && 0 <= z < 8
      modifies this
      ensures Abs() == Quarter3(old(Abs()), y, z, inp)
    {
      hide Memory.Read, Memory.ReadWord, Ret, Call, Rst, Misc, PopPair, PushPair, AluOp, Condition;
      match z {
        case 0 => if Condition(flags, y) { DoReturn(); }
        case 1 =>
          if y % 2 == 0 {
            PopTo(y / 2);
          } else if y < 4 {
            DoReturn();
          } else if y == 5 {
            pc := Pair(h, l);
          } else {
            sp := Pair(h, l);
          }
        case 2 =>
          if Condition(flags, y) {
            pc := ReadWord(ram, pc, false);
          } else {
            pc := ToWord(pc + 2);
          }
        case 3 => Miscellaneous(y, inp);
        case 4 =>
          if Condition(flags, y) {
            DoCall();
          } else {
            pc := ToWord(pc + 2);
          }
        case 5 =>
          if y % 2 == 0 {
            PushFrom(y / 2);
          } else {
            DoCall();
          }
        case 6 =>
          AluSkips(Abs(), y, Imm8(Abs()));
          var v := FetchByte();
          Arithmetic(y, v);
        case _ => DoRestart(8 * y);
      }
    }

    /** i8080_execute: the switch, then the delayed effect of EI. */
    method DoExecute(op: Byte, inp: Byte)
      modifies this
      ensures Abs() == Execute(old(Abs()), op, inp)
    {
      hide Quarter0, Quarter3, AluOp, GetReg, SetReg;
      var x, y, z := op / 64, op / 8 % 8, op % 8;
      match x {
        case 0 => LowQuarter(y, z);
        case 1 =>
          if op == 0x76 {
            pc := ToWord(pc - 1);
          } else {
            var v := Register(z);
            SetRegister(y, v);
          }
        case 2 =>
          var v := Register(z);
          Arithmetic(y, v);
        case _ => HighQuarter(y, z, inp);
      }
      DelayedEnable();
    }

    method DelayedEnable()
      modifies this`iff, this`eiPending, this`inte, this`irq
      ensures Abs() == EiTail(old(Abs()))
    {
      if eiPending != 0 {
        eiPending := eiPending - 1;
        if eiPending == 0 {
          iff := true;
          Lines(iff);
        }
      }
    }

    /** i8080_instruction: one step of the processor the board and the analyser are proved about. */
    method Instruction(inp: Byte) returns (op: Byte)
      modifies this
      ensures op == NextOp(old(Abs())) && Abs() == Step(old(Abs()), inp)
    {
      hide Execute, Memory.Read;
      op := FetchByte();
      DoExecute(op, inp);
    }
  }

  lemma SetKeepsFlags(m: Machine, r: int, v: Byte)
    requires 0 <= r < 8
    ensures SetReg(m, r, v).cpu.flags == m.cpu.flags
  {
    hide Memory.Write;
  }

  /** Fetching an operand and using it commute. */
  lemma SetPairSkips(m: Machine, p: int, w: Word)
    requires 0 <= p < 4
    ensures SetPair(Skip(m, 2), p, w) == Skip(SetPair(m, p, w), 2)
  {
  }

  lemma SetRegSkips(m: Machine, r: int, v: Byte)
    requires 0 <= r < 8
    ensures SetReg(Skip(m, 1), r, v) == Skip(SetReg(m, r, v), 1)
  {
    hide Memory.Write;
  }

  lemma AluSkips(m: Machine, y: int, v: Byte)
    requires 0 <= y < 8
    ensures AluOp(Skip(m, 1), y, v) == Skip(AluOp(m, y, v), 1)
  {
    hide Add, Sub, And, Xor, Or;
  }
}
