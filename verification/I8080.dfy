/** The 8080 interpreter (src/i8080.cpp): `Execute` is one pass through its
    opcode switch, `Step` is i8080_instruction. Opcodes are taken apart as
    x = bits 7..6, y = bits 5..3, z = bits 2..0, the way the chip encodes them. */
module I8080 {
  import opened Words
  import opened Memory
  import opened Alu

  type EiCount = x: int | 0 <= x < 3

  datatype Cpu = Cpu(a: Byte, b: Byte, c: Byte, d: Byte, e: Byte, h: Byte, l: Byte,
                     f: Byte, flags: Flags, sp: Word, pc: Word, iff: bool, eiPending: EiCount)

  /** The processor, its memory, the board's INTE/INT latch that i8080_hal_iff
      drives, and the output latch that OUT fills (outPort is -1 when it is empty). */
  datatype Machine = Machine(cpu: Cpu, ram: Ram, inte: bool, irq: bool, outPort: int, outByte: Byte)

  // ---- registers ----

  function HL(m: Machine): Word { Pair(m.cpu.h, m.cpu.l) }

  function GetReg(m: Machine, r: int): Byte
    requires 0 <= r < 8
  {
    match r
    case 0 => m.cpu.b case 1 => m.cpu.c case 2 => m.cpu.d case 3 => m.cpu.e
    case 4 => m.cpu.h case 5 => m.cpu.l
    case 6 => Read(m.ram, HL(m), false)
    case _ => m.cpu.a
  }

  function SetReg(m: Machine, r: int, v: Byte): Machine
    requires 0 <= r < 8
  {
    match r
    case 0 => m.(cpu := m.cpu.(b := v)) case 1 => m.(cpu := m.cpu.(c := v))
    case 2 => m.(cpu := m.cpu.(d := v)) case 3 => m.(cpu := m.cpu.(e := v))
    case 4 => m.(cpu := m.cpu.(h := v)) case 5 => m.(cpu := m.cpu.(l := v))
    case 6 => m.(ram := Write(m.ram, HL(m), v, false))
    case _ => m.(cpu := m.cpu.(a := v))
  }

  function GetPair(m: Machine, p: int): Word
    requires 0 <= p < 4
  {
    match p
    case 0 => Pair(m.cpu.b, m.cpu.c)
    case 1 => Pair(m.cpu.d, m.cpu.e)
    case 2 => HL(m)
    case _ => m.cpu.sp
  }

  function SetPair(m: Machine, p: int, w: Word): Machine
    requires 0 <= p < 4
  {
    match p
    case 0 => m.(cpu := m.cpu.(b := Hi(w), c := Lo(w)))
    case 1 => m.(cpu := m.cpu.(d := Hi(w), e := Lo(w)))
    case 2 => m.(cpu := m.cpu.(h := Hi(w), l := Lo(w)))
    case _ => m.(cpu := m.cpu.(sp := w))
  }

  function Jump(m: Machine, addr: int): Machine { m.(cpu := m.cpu.(pc := ToWord(addr))) }

  function Skip(m: Machine, n: int): Machine { Jump(m, m.cpu.pc + n) }

  function Imm8(m: Machine): Byte { Read(m.ram, m.cpu.pc, false) }

  function Imm16(m: Machine): Word { ReadWord(m.ram, m.cpu.pc, false) }

  // ---- stack ----

  function Push(m: Machine, w: Word): Machine
  {
    var sp := ToWord(m.cpu.sp - 2);
    m.(cpu := m.cpu.(sp := sp), ram := WriteWord(m.ram, sp, w, true))
  }

  function Top(m: Machine): Word { ReadWord(m.ram, m.cpu.sp, true) }

  function Drop(m: Machine): Machine { m.(cpu := m.cpu.(sp := ToWord(m.cpu.sp + 2))) }

  function Ret(m: Machine): Machine { Jump(Drop(m), Top(m)) }

  /** Pushes first and only then reads the operand, through a stack read. */
  function Call(m: Machine): Machine
  {
    var p := Push(m, ToWord(m.cpu.pc + 2));
    Jump(p, ReadWord(p.ram, m.cpu.pc, true))
  }

  function Rst(m: Machine, addr: Word): Machine { Jump(Push(m, m.cpu.pc), addr) }

  function PackFlags(f: Flags): Byte
  {
    128 * f.sg + 64 * f.ze + 16 * f.hc + 4 * f.pa + 2 + f.cy
  }

  function UnpackFlags(b: Byte): Flags
  {
    Flags(b % 2, b / 4 % 2, b / 16 % 2, b / 64 % 2, b / 128)
  }

  // ---- interrupt enable line ----

  /** Board::interrupt, reached through i8080_hal_iff. */
  function SetInte(m: Machine, on: bool): Machine { m.(inte := on, irq := m.irq && on) }

  /** The tail of i8080_execute: EI takes effect one instruction late. */
  function EiTail(m: Machine): Machine
  {
    if m.cpu.eiPending == 0 then m
    else if m.cpu.eiPending == 1 then SetInte(m.(cpu := m.cpu.(iff := true, eiPending := 0)), true)
    else m.(cpu := m.cpu.(eiPending := m.cpu.eiPending - 1))
  }

  // ---- conditions ----

  /** The condition in bits 5..3: NZ Z NC C PO PE P M. */
  function Condition(f: Flags, y: int): bool
    requires 0 <= y < 8
  {
    match y
    case 0 => f.ze == 0 case 1 => f.ze == 1 case 2 => f.cy == 0 case 3 => f.cy == 1
    case 4 => f.pa == 0 case 5 => f.pa == 1 case 6 => f.sg == 0 case _ => f.sg == 1
  }

  // ---- the opcode switch ----

  function SetAlu(m: Machine, o: Out): Machine { m.(cpu := m.cpu.(a := o.a, flags := o.f)) }

  function AluOp(m: Machine, y: int, v: Byte): Machine
    requires 0 <= y < 8
  {
    var a, c := m.cpu.a, m.cpu.flags.cy;
    match y
    case 0 => SetAlu(m, Add(a, v, 0))
    case 1 => SetAlu(m, Add(a, v, c))
    case 2 => SetAlu(m, Sub(a, v, 0))
    case 3 => SetAlu(m, Sub(a, v, c))
    case 4 => SetAlu(m, And(a, v))
    case 5 => SetAlu(m, Xor(a, v))
    case 6 => SetAlu(m, Or(a, v))
    case _ => m.(cpu := m.cpu.(flags := Sub(a, v, 0).f))
  }

  /** INR keeps the carry; its half carry is "low nibble became 0". */
  function Inr(m: Machine, r: int): Machine
    requires 0 <= r < 8
  {
    var v := ToByte(GetReg(m, r) + 1);
    var s := SetReg(m, r, v);
    s.(cpu := s.cpu.(flags := Flags(m.cpu.flags.cy, Parity(v), Flag(v % 16 == 0), Flag(v == 0), Flag(v >= 128))))
  }

  function Dcr(m: Machine, r: int): Machine
    requires 0 <= r < 8
  {
    var v := ToByte(GetReg(m, r) - 1);
    var s := SetReg(m, r, v);
    s.(cpu := s.cpu.(flags := Flags(m.cpu.flags.cy, Parity(v), Flag(v % 16 != 15), Flag(v == 0), Flag(v >= 128))))
  }

  function SetAcc(m: Machine, a: Byte, cy: Bit): Machine
  {
    m.(cpu := m.cpu.(a := a, flags := m.cpu.flags.(cy := cy)))
  }

  /** RLC RRC RAL RAR DAA CMA STC CMC. */
  function AccOp(m: Machine, y: int): Machine
    requires 0 <= y < 8
  {
    var a, c := m.cpu.a, m.cpu.flags.cy;
    match y
    case 0 => SetAcc(m, a % 128 * 2 + a / 128, a / 128)
    case 1 => SetAcc(m, a / 2 + 128 * (a % 2), a % 2)
    case 2 => SetAcc(m, a % 128 * 2 + c, a / 128)
    case 3 => SetAcc(m, a / 2 + 128 * c, a % 2)
    case 4 => SetAlu(m, Daa(a, m.cpu.flags))
    case 5 => SetAcc(m, 255 - a, c)
    case 6 => SetAcc(m, a, 1)
    case _ => SetAcc(m, a, 1 - c)
  }

  function Dad(m: Machine, w: Word): Machine
  {
    var s := HL(m) + w;
    var r := SetPair(m, 2, ToWord(s));
    SetAcc(r, r.cpu.a, s / 65536)
  }

  /** STAX/LDAX B and D, SHLD, LHLD, STA, LDA. */
  function LoadStore(m: Machine, y: int): Machine
    requires 0 <= y < 8
  {
    match y
    case 0 => m.(ram := Write(m.ram, GetPair(m, 0), m.cpu.a, false))
    case 1 => SetReg(m, 7, Read(m.ram, GetPair(m, 0), false))
    case 2 => m.(ram := Write(m.ram, GetPair(m, 1), m.cpu.a, false))
    case 3 => SetReg(m, 7, Read(m.ram, GetPair(m, 1), false))
    case 4 => Skip(m.(ram := WriteWord(m.ram, Imm16(m), HL(m), false)), 2)
    case 5 => Skip(SetPair(m, 2, ReadWord(m.ram, Imm16(m), false)), 2)
    case 6 => Skip(m.(ram := Write(m.ram, Imm16(m), m.cpu.a, false)), 2)
    case _ => Skip(SetReg(m, 7, Read(m.ram, Imm16(m), false)), 2)
  }

  /** Opcodes 00..3F. */
  function Quarter0(m: Machine, y: int, z: int): Machine
    requires 0 <= y < 8 && 0 <= z < 8
  {
    match z
    case 0 => m
    case 1 => if y % 2 == 0 then Skip(SetPair(m, y / 2, Imm16(m)), 2) else Dad(m, GetPair(m, y / 2))
    case 2 => LoadStore(m, y)
    case 3 => SetPair(m, y / 2, ToWord(GetPair(m, y / 2) + (if y % 2 == 0 then 1 else -1)))
    case 4 => Inr(m, y)
    case 5 => Dcr(m, y)
    case 6 => Skip(SetReg(m, y, Imm8(m)), 1)
    case _ => AccOp(m, y)
  }

  /** PUSH and POP number the pairs BC DE HL PSW. */
  function PopPair(m: Machine, p: int): Machine
    requires 0 <= p < 4
  {
    var w := Top(m);
    if p < 3 then SetPair(Drop(m), p, w)
    else var r := Drop(m); r.(cpu := r.cpu.(a := Hi(w), f := Lo(w), flags := UnpackFlags(Lo(w))))
  }

  function PushPair(m: Machine, p: int): Machine
    requires 0 <= p < 4
  {
    if p < 3 then Push(m, GetPair(m, p))
    else
      var f := PackFlags(m.cpu.flags);
      Push(m.(cpu := m.cpu.(f := f)), Pair(m.cpu.a, f))
  }

  /** JMP, its undocumented twin CB, OUT, IN, XTHL, XCHG, DI, EI. */
  function Misc(m: Machine, y: int, inp: Byte): Machine
    requires 0 <= y < 8
  {
    match y
    case 0 => Jump(m, Imm16(m))
    case 1 => Jump(m, Imm16(m))
    case 2 => Skip(m.(outPort := Imm8(m), outByte := m.cpu.a), 1)
    case 3 => Skip(SetReg(m, 7, inp), 1)
    case 4 => SetPair(m.(ram := WriteWord(m.ram, m.cpu.sp, HL(m), true)), 2, Top(m))
    case 5 => m.(cpu := m.cpu.(d := m.cpu.h, e := m.cpu.l, h := m.cpu.d, l := m.cpu.e))
    case 6 => SetInte(m.(cpu := m.cpu.(iff := false, eiPending := 0)), false)
    case _ => SetInte(m.(cpu := m.cpu.(iff := false, eiPending := 2)), true)
  }

  /** Opcodes C0..FF. */
  function Quarter3(m: Machine, y: int, z: int, inp: Byte): Machine
    requires 0 <= y < 8 && 0 <= z < 8
  {
    match z
    case 0 => if Condition(m.cpu.flags, y) then Ret(m) else m
    case 1 =>
      if y % 2 == 0 then PopPair(m, y / 2)
      else if y < 4 then Ret(m)
      else if y == 5 then Jump(m, HL(m))
      else m.(cpu := m.cpu.(sp := HL(m)))
    case 2 => if Condition(m.cpu.flags, y) then Jump(m, Imm16(m)) else Skip(m, 2)
    case 3 => Misc(m, y, inp)
    case 4 => if Condition(m.cpu.flags, y) then Call(m) else Skip(m, 2)
    case 5 => if y % 2 == 0 then PushPair(m, y / 2) else Call(m)
    case 6 => Skip(AluOp(m, y, Imm8(m)), 1)
    case _ => Rst(m, 8 * y)
  }

  /** The switch of i8080_execute; `inp` is what io.input returns should the opcode be IN. */
  function Switch(m: Machine, op: Byte, inp: Byte): Machine
  {
    var x, y, z := op / 64, op / 8 % 8, op % 8;
    match x
    case 0 => Quarter0(m, y, z)
    case 1 => if op == 0x76 then Skip(m, -1) else SetReg(m, y, GetReg(m, z))
    case 2 => AluOp(m, y, GetReg(m, z))
    case _ => Quarter3(m, y, z, inp)
  }

  function Execute(m: Machine, op: Byte, inp: Byte): Machine { EiTail(Switch(m, op, inp)) }

  /** The opcode the processor is about to fetch. */
  function NextOp(m: Machine): Byte { Read(m.ram, m.cpu.pc, false) }

  function Step(m: Machine, inp: Byte): Machine { Execute(Skip(m, 1), NextOp(m), inp) }

  // ---- timing ----

  /** The opcode's own condition holds (Rcc, Jcc, Ccc), so it returns, jumps or calls. */
  predicate Taken(f: Flags, op: Byte) { Condition(f, op / 8 % 8) }

  /** v_cycles: 3 MHz clocks on the Vector-06C bus. */
  function VCycles(f: Flags, op: Byte): int
  {
    var x, y, z := op / 64, op / 8 % 8, op % 8;
    match x
    case 0 =>
      (match z
       case 0 => 4
       case 1 => 12
       case 2 => if y < 4 then 8 else if y < 6 then 20 else 16
       case 3 => 8
       case 4 => if y == 6 then 12 else 8
       case 5 => if y == 6 then 12 else 8
       case 6 => if y == 6 then 12 else 8
       case _ => 4)
    case 1 => if op == 0x76 then 4 else 8
    case 2 => if z == 6 then 8 else 4
    case _ =>
      (match z
       case 0 => if Taken(f, op) then 16 else 8
       case 1 => if y == 5 || y == 7 then 8 else 12
       case 2 => 12
       case 3 => if y < 4 then 12 else if y == 4 then 24 else 4
       case 4 => if Taken(f, op) then 24 else 16
       case 5 => if y % 2 == 0 then 16 else 24
       case 6 => 8
       case _ => 16)
  }

  /** cpu_cycles: the chip's own T-states, used only to place the interrupt. */
  function CpuCycles(f: Flags, op: Byte): int
  {
    var x, y, z := op / 64, op / 8 % 8, op % 8;
    match x
    case 0 =>
      (match z
       case 0 => 4
       case 1 => 10
       case 2 => if y < 4 then 7 else if y < 6 then 16 else 13
       case 3 => 5
       case 4 => if y == 6 then 10 else 5
       case 5 => if y == 6 then 10 else 5
       case 6 => if y == 6 then 10 else 7
       case _ => 4)
    case 1 => if op == 0x76 then 4 else if y == 6 || z == 6 then 7 else 5
    case 2 => if z == 6 then 7 else 4
    case _ =>
      (match z
       case 0 => if Taken(f, op) then 11 else 5
       case 1 => if y == 5 || y == 7 then 5 else if y == 6 then 10 else if y % 2 == 0 then 11 else 10
       case 2 => 10
       case 3 => if y < 4 then 10 else if y == 4 then 18 else 4
       case 4 => if Taken(f, op) then 17 else 11
       case 5 => if y % 2 == 0 then 11 else 17
       case 6 => 7
       case _ => 11)
  }
}
