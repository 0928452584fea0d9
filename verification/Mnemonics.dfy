/** What the debugger's listing calls each opcode (debugger/src/disassembler.cpp, lower-cased by the exporter),
    and how an 8080 assembler reads it back. The reader knows the 8080 instruction set only; which opcodes
    survive is a result. */
module Mnemonics {
  import opened Words
  import opened Wrappers

  type Three = y: int | 0 <= y < 8

  datatype Mnemonic =
    | Nop | Lxi | Dad | Stax | Ldax | Shld | Lhld | Sta | Lda | Inx | Dcx | Inr | Dcr | Mvi | Mov | Hlt | Pop
    | Push | Ret | Pchl | Sphl | Jmp | Call | Out | In | Xthl | Xchg | Di | Ei | Rst | Acc(y: Three)
    | Alu(y: Three) | AluImm(y: Three) | Rcc(y: Three) | Jcc(y: Three) | Ccc(y: Three)

  function Spell(m: Mnemonic): string
  {
    match m
    case Nop => "nop" case Lxi => "lxi" case Dad => "dad" case Stax => "stax" case Ldax => "ldax"
    case Shld => "shld" case Lhld => "lhld" case Sta => "sta" case Lda => "lda" case Inx => "inx"
    case Dcx => "dcx" case Inr => "inr" case Dcr => "dcr" case Mvi => "mvi" case Mov => "mov" case Hlt => "hlt"
    case Pop => "pop" case Push => "push" case Ret => "ret" case Pchl => "pchl" case Sphl => "sphl"
    case Jmp => "jmp" case Call => "call" case Out => "out" case In => "in" case Xthl => "xthl"
    case Xchg => "xchg" case Di => "di" case Ei => "ei" case Rst => "rst"
    case Acc(y) =>
      (match y
       case 0 => "rlc" case 1 => "rrc" case 2 => "ral" case 3 => "rar" case 4 => "daa" case 5 => "cma"
       case 6 => "stc" case _ => "cmc")
    case Alu(y) =>
      (match y
       case 0 => "add" case 1 => "adc" case 2 => "sub" case 3 => "sbb" case 4 => "ana" case 5 => "xra"
       case 6 => "ora" case _ => "cmp")
    case AluImm(y) =>
      (match y
       case 0 => "adi" case 1 => "aci" case 2 => "sui" case 3 => "sbi" case 4 => "ani" case 5 => "xri"
       case 6 => "ori" case _ => "cpi")
    case Rcc(y) =>
      (match y
       case 0 => "rnz" case 1 => "rz" case 2 => "rnc" case 3 => "rc" case 4 => "rpo" case 5 => "rpe"
       case 6 => "rp" case _ => "rm")
    case Jcc(y) =>
      (match y
       case 0 => "jnz" case 1 => "jz" case 2 => "jnc" case 3 => "jc" case 4 => "jpo" case 5 => "jpe"
       case 6 => "jp" case _ => "jm")
    case Ccc(y) =>
      (match y
       case 0 => "cnz" case 1 => "cz" case 2 => "cnc" case 3 => "cc" case 4 => "cpo" case 5 => "cpe"
       case 6 => "cp" case _ => "cm")
  }

  // ---- reading a word ----

  function Letter(c: char): int { c as int - 96 }

  /** A word of two to four letters as a number in base 32. */
  function Key(s: string): int
  {
    if |s| == 2 then 32 * Letter(s[0]) + Letter(s[1])
    else if |s| == 3 then 1024 * Letter(s[0]) + 32 * Letter(s[1]) + Letter(s[2])
    else if |s| == 4 then 32768 * Letter(s[0]) + 1024 * Letter(s[1]) + 32 * Letter(s[2]) + Letter(s[3])
    else 0
  }

  /** The assembler's mnemonic table. */
  function Lex(s: string): Option<Mnemonic>
  {
    match Key(s)
    case 14832 => Some(Nop) case 13065 => Some(Lxi) case 4132 => Some(Dad) case 643128 => Some(Stax)
    case 397368 => Some(Ldax) case 631172 => Some(Shld) case 401796 => Some(Lhld) case 20097 => Some(Sta)
    case 12417 => Some(Lda) case 9688 => Some(Inx) case 4216 => Some(Dcx) case 9682 => Some(Inr)
    case 4210 => Some(Dcr) case 14025 => Some(Mvi) case 13814 => Some(Mov) case 8596 => Some(Hlt)
    case 16880 => Some(Pop) case 546408 => Some(Push) case 18612 => Some(Ret) case 527628 => Some(Pchl)
    case 639244 => Some(Sphl) case 10672 => Some(Jmp) case 99724 => Some(Call) case 16052 => Some(Out)
    case 302 => Some(In) case 807180 => Some(Xthl) case 789767 => Some(Xchg) case 137 => Some(Di)
    case 169 => Some(Ei) case 19060 => Some(Rst) case 18819 => Some(Acc(0)) case 19011 => Some(Acc(1))
    case 18476 => Some(Acc(2)) case 18482 => Some(Acc(3)) case 4129 => Some(Acc(4)) case 3489 => Some(Acc(5))
    case 20099 => Some(Acc(6)) case 3491 => Some(Acc(7)) case 1156 => Some(Alu(0)) case 1155 => Some(Alu(1))
    case 20130 => Some(Alu(2)) case 19522 => Some(Alu(3)) case 1473 => Some(Alu(4)) case 25153 => Some(Alu(5))
    case 15937 => Some(Alu(6)) case 3504 => Some(Alu(7)) case 1161 => Some(AluImm(0))
    case 1129 => Some(AluImm(1)) case 20137 => Some(AluImm(2)) case 19529 => Some(AluImm(3))
    case 1481 => Some(AluImm(4)) case 25161 => Some(AluImm(5)) case 15945 => Some(AluImm(6))
    case 3593 => Some(AluImm(7)) case 18906 => Some(Rcc(0)) case 602 => Some(Rcc(1)) case 18883 => Some(Rcc(2))
    case 579 => Some(Rcc(3)) case 18959 => Some(Rcc(4)) case 18949 => Some(Rcc(5)) case 592 => Some(Rcc(6))
    case 589 => Some(Rcc(7)) case 10714 => Some(Jcc(0)) case 346 => Some(Jcc(1)) case 10691 => Some(Jcc(2))
    case 323 => Some(Jcc(3)) case 10767 => Some(Jcc(4)) case 10757 => Some(Jcc(5)) case 336 => Some(Jcc(6))
    case 333 => Some(Jcc(7)) case 3546 => Some(Ccc(0)) case 122 => Some(Ccc(1)) case 3523 => Some(Ccc(2))
    case 99 => Some(Ccc(3)) case 3599 => Some(Ccc(4)) case 3589 => Some(Ccc(5)) case 112 => Some(Ccc(6))
    case 109 => Some(Ccc(7))
    case _ => None
  }

  lemma LexPlain(m: Mnemonic)
    requires !m.Acc? && !m.Alu? && !m.AluImm? && !m.Rcc? && !m.Jcc? && !m.Ccc?
    ensures Lex(Spell(m)) == Some(m)
  {
  }

  lemma LexAcc(y: Three)
    ensures Lex(Spell(Acc(y))) == Some(Acc(y))
  {
  }

  lemma LexAlu(y: Three)
    ensures Lex(Spell(Alu(y))) == Some(Alu(y))
  {
  }

  lemma LexAluImm(y: Three)
    ensures Lex(Spell(AluImm(y))) == Some(AluImm(y))
  {
  }

  lemma LexRcc(y: Three)
    ensures Lex(Spell(Rcc(y))) == Some(Rcc(y))
  {
  }

  lemma LexJcc(y: Three)
    ensures Lex(Spell(Jcc(y))) == Some(Jcc(y))
  {
  }

  lemma LexCcc(y: Three)
    ensures Lex(Spell(Ccc(y))) == Some(Ccc(y))
  {
  }

  /** No two mnemonics are spelled alike, and every one is read as itself. */
  lemma LexSpell(m: Mnemonic)
    ensures Lex(Spell(m)) == Some(m)
  {
    hide Lex, Spell;
    match m {
      case Acc(y) => LexAcc(y);
      case Alu(y) => LexAlu(y);
      case AluImm(y) => LexAluImm(y);
      case Rcc(y) => LexRcc(y);
      case Jcc(y) => LexJcc(y);
      case Ccc(y) => LexCcc(y);
      case _ => LexPlain(m);
    }
  }

  // ---- registers ----

  /** B C D E H L M A. */
  function RegName(r: Three): char
  {
    match r
    case 0 => 'b' case 1 => 'c' case 2 => 'd' case 3 => 'e' case 4 => 'h' case 5 => 'l' case 6 => 'm' case _ => 'a'
  }

  function RegIndex(c: char): Option<Three>
  {
    if c == 'b' then Some(0) else if c == 'c' then Some(1) else if c == 'd' then Some(2) else if c == 'e' then Some(3)
    else if c == 'h' then Some(4) else if c == 'l' then Some(5) else if c == 'm' then Some(6)
    else if c == 'a' then Some(7) else None
  }

  type Two = p: int | 0 <= p < 4

  /** B D H, then SP, or PSW for PUSH and POP. */
  function PairName(p: Two, stack: bool): string
  {
    match p
    case 0 => "b" case 1 => "d" case 2 => "h"
    case _ => if stack then "psw" else "sp"
  }

  function PairIndex(s: string, stack: bool): Option<Two>
  {
    if |s| == 1 then
      (if s[0] == 'b' then Some(0) else if s[0] == 'd' then Some(1) else if s[0] == 'h' then Some(2) else None)
    else if |s| == 2 && !stack && s[0] == 's' && s[1] == 'p' then Some(3)
    else if |s| == 3 && stack && s[0] == 'p' && s[1] == 's' && s[2] == 'w' then Some(3)
    else None
  }

  // ---- an opcode as text ----

  /** Mnemonic and register part; an immediate operand or address comes on top. */
  datatype OpText = OpText(mnemonic: string, registers: string)

  /** The five opcodes the table prints as DB with their own value. */
  predicate PrintsDb(op: Byte) { op == 0xCB || op == 0xD9 || op == 0xDD || op == 0xED || op == 0xFD }

  function LowName(y: Three, z: Three): Mnemonic
  {
    match z
    case 0 => Nop
    case 1 => if y % 2 == 0 then Lxi else Dad
    case 2 => (match y case 0 => Stax case 1 => Ldax case 2 => Stax case 3 => Ldax
               case 4 => Shld case 5 => Lhld case 6 => Sta case _ => Lda)
    case 3 => if y % 2 == 0 then Inx else Dcx
    case 4 => Inr
    case 5 => Dcr
    case 6 => Mvi
    case _ => Acc(y)
  }

  function LowRegisters(y: Three, z: Three): string
  {
    match z
    case 1 => PairName(y / 2, false)
    case 2 => if y < 4 then PairName(y / 2, false) else ""
    case 3 => PairName(y / 2, false)
    case 4 => [RegName(y)]
    case 5 => [RegName(y)]
    case 6 => [RegName(y)]
    case _ => ""
  }

  function HighName(y: Three, z: Three): Mnemonic
  {
    match z
    case 0 => Rcc(y)
    case 1 => if y % 2 == 0 then Pop else if y == 1 then Ret else if y == 5 then Pchl else Sphl
    case 2 => Jcc(y)
    case 3 => (match y case 0 => Jmp case 2 => Out case 3 => In case 4 => Xthl case 5 => Xchg case 6 => Di case _ => Ei)
    case 4 => Ccc(y)
    case 5 => if y % 2 == 0 then Push else Call
    case 6 => AluImm(y)
    case _ => Rst
  }

  /** The table of the disassembler, by the fields x, y, z of the opcode. */
  function NameOf(op: Byte): Mnemonic
    requires !PrintsDb(op)
  {
    var x, y, z := op / 64, op / 8 % 8, op % 8;
    match x
    case 0 => LowName(y, z)
    case 1 => if op == 0x76 then Hlt else Mov
    case 2 => Alu(y)
    case _ => HighName(y, z)
  }

  function RegistersOf(op: Byte): string
    requires !PrintsDb(op)
  {
    var x, y, z := op / 64, op / 8 % 8, op % 8;
    match x
    case 0 => LowRegisters(y, z)
    case 1 => if op == 0x76 then "" else [RegName(y), ',', RegName(z)]
    case 2 => [RegName(z)]
    case _ => if (z == 1 || z == 5) && y % 2 == 0 then PairName(y / 2, true) else ""
  }

  function TextOf(op: Byte): OpText
    requires !PrintsDb(op)
  {
    OpText(Spell(NameOf(op)), RegistersOf(op))
  }

  // ---- reading it back ----

  function WithReg(s: string, base: int, step: int): Option<Byte>
    requires 0 <= base && 0 <= step && base + 7 * step < 256
  {
    if |s| != 1 then None else match RegIndex(s[0]) case None => None case Some(r) => Some(Scaled(base, step, r))
  }

  function Scaled(base: int, step: int, r: Three): Byte
    requires 0 <= base && 0 <= step && base + 7 * step < 256
  {
    assert 0 <= step * r <= step * 7;
    base + step * r
  }

  function WithPair(s: string, stack: bool, base: int, top: Two): Option<Byte>
    requires 0 <= base && base + 48 < 256
  {
    match PairIndex(s, stack) case None => None case Some(p) => if p <= top then Some(base + 16 * p) else None
  }

  function Alone(s: string, op: Byte): Option<Byte> { if s == "" then Some(op) else None }

  /** The opcode an assembler produces for a mnemonic and its registers. */
  function Assembled(m: Mnemonic, regs: string): Option<Byte>
  {
    match m
    case Nop => Alone(regs, 0x00)
    case Lxi => WithPair(regs, false, 0x01, 3)
    case Dad => WithPair(regs, false, 0x09, 3)
    case Stax => WithPair(regs, false, 0x02, 1)
    case Ldax => WithPair(regs, false, 0x0A, 1)
    case Shld => Alone(regs, 0x22)
    case Lhld => Alone(regs, 0x2A)
    case Sta => Alone(regs, 0x32)
    case Lda => Alone(regs, 0x3A)
    case Inx => WithPair(regs, false, 0x03, 3)
    case Dcx => WithPair(regs, false, 0x0B, 3)
    case Inr => WithReg(regs, 0x04, 8)
    case Dcr => WithReg(regs, 0x05, 8)
    case Mvi => WithReg(regs, 0x06, 8)
    case Mov =>
      if |regs| != 3 || regs[1] != ',' then None
      else (match RegIndex(regs[0])
            case None => None
            case Some(d) =>
              (match RegIndex(regs[2])
               case None => None
               case Some(s) => if d == 6 && s == 6 then None else Some(0x40 + 8 * d + s)))
    case Hlt => Alone(regs, 0x76)
    case Pop => WithPair(regs, true, 0xC1, 3)
    case Push => WithPair(regs, true, 0xC5, 3)
    case Ret => Alone(regs, 0xC9)
    case Pchl => Alone(regs, 0xE9)
    case Sphl => Alone(regs, 0xF9)
    case Jmp => Alone(regs, 0xC3)
    case Call => Alone(regs, 0xCD)
    case Out => Alone(regs, 0xD3)
    case In => Alone(regs, 0xDB)
    case Xthl => Alone(regs, 0xE3)
    case Xchg => Alone(regs, 0xEB)
    case Di => Alone(regs, 0xF3)
    case Ei => Alone(regs, 0xFB)
    case Rst => Alone(regs, 0xC7)
    case Acc(y) => Alone(regs, 0x07 + 8 * y)
    case Alu(y) => WithReg(regs, 0x80 + 8 * y, 1)
    case AluImm(y) => Alone(regs, 0xC6 + 8 * y)
    case Rcc(y) => Alone(regs, 0xC0 + 8 * y)
    case Jcc(y) => Alone(regs, 0xC2 + 8 * y)
    case Ccc(y) => Alone(regs, 0xC4 + 8 * y)
  }

  function ReadText(t: OpText): Option<Byte>
  {
    match Lex(t.mnemonic) case None => None case Some(m) => Assembled(m, t.registers)
  }

  lemma RegisterReads(r: Three)
    ensures RegIndex(RegName(r)) == Some(r)
  {
  }

  lemma PairReads(p: Two, stack: bool)
    ensures PairIndex(PairName(p, stack), stack) == Some(p)
  {
  }

  /** What a listed opcode assembles to: RST takes its number from its operand. */
  function Denoted(op: Byte): Byte
  {
    if PrintsDb(op) then op
    else if op / 64 == 3 && op % 8 == 7 then 0xC7
    else if op < 0x40 && op % 8 == 0 then 0
    else op
  }

  lemma LowReads(op: Byte)
    requires op < 0x40
    ensures Assembled(NameOf(op), RegistersOf(op)) == Some(Denoted(op))
  {
    var y, z := op / 8 % 8, op % 8;
    assert op == 8 * y + z && op / 64 == 0;
    RegisterReads(y);
    PairReads(y / 2, false);
    assert y == 2 * (y / 2) + y % 2;
    hide RegName, RegIndex, PairName, PairIndex;
  }

  lemma MiddleReads(op: Byte)
    requires 0x40 <= op < 0xC0
    ensures Assembled(NameOf(op), RegistersOf(op)) == Some(Denoted(op))
  {
    var x, y, z := op / 64, op / 8 % 8, op % 8;
    assert op == 64 * x + 8 * y + z && (x == 1 || x == 2);
    RegisterReads(y);
    RegisterReads(z);
    hide RegName, RegIndex;
  }

  lemma HighReads(op: Byte)
    requires 0xC0 <= op && !PrintsDb(op)
    ensures Assembled(NameOf(op), RegistersOf(op)) == Some(Denoted(op))
  {
    var y, z := op / 8 % 8, op % 8;
    assert op == 192 + 8 * y + z && op / 64 == 3;
    if (z == 1 || z == 5) && y % 2 == 0 {
      StackReads(op, y / 2, z);
    } else {
      PlainReads(op, y, z);
    }
  }

  lemma StackReads(op: Byte, p: Two, z: Three)
    requires op == 192 + 16 * p + z && (z == 1 || z == 5) && !PrintsDb(op)
    ensures Assembled(NameOf(op), RegistersOf(op)) == Some(op)
  {
    assert op / 64 == 3 && op / 8 % 8 == 2 * p && op % 8 == z;
    PairReads(p, true);
    hide PairName, PairIndex;
  }

  lemma PlainReads(op: Byte, y: Three, z: Three)
    requires op == 192 + 8 * y + z && !PrintsDb(op) && !((z == 1 || z == 5) && y % 2 == 0)
    ensures Assembled(NameOf(op), RegistersOf(op)) == Some(Denoted(op))
  {
    assert op / 64 == 3 && op / 8 % 8 == y && op % 8 == z;
  }

  /** All 256 opcodes, as printed, are read back as `Denoted` says. */
  lemma TextReads(op: Byte)
    requires !PrintsDb(op)
    ensures ReadText(TextOf(op)) == Some(Denoted(op))
  {
    LexSpell(NameOf(op));
    hide Lex, Spell, NameOf, RegistersOf, Assembled, Denoted;
    if op < 0x40 {
      LowReads(op);
    } else if op < 0xC0 {
      MiddleReads(op);
    } else {
      HighReads(op);
    }
  }

  /** The undocumented NOPs 08, 10, ..., 38. */
  predicate Alias(op: Byte) { 0 < op < 0x40 && op % 8 == 0 }

  /** They, and only they, read back as another instruction; RST is told by its operand. */
  lemma AliasesExactly(op: Byte)
    requires !PrintsDb(op) && !(op / 64 == 3 && op % 8 == 7)
    ensures ReadText(TextOf(op)) != Some(op) <==> Alias(op)
  {
    TextReads(op);
    hide ReadText, TextOf;
  }
}
