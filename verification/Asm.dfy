/** The lines of an exported listing and what a two-pass assembler makes of them:
    the reference meaning the exporter (debugger/export/asm_exporter.cpp) is held to. */
module Asm {
  import opened Words
  import opened Wrappers
  import opened Analyzer
  import opened Mnemonics
  import opened Literals

  datatype Operand = NoOperand | Num(literal: string) | Sym(symbol: string)

  /** One line of layout.asm: numbers are literals, instructions a mnemonic with registers and an operand. */
  datatype Line = Label(name: string) | Equ(name: string, literal: string) | Defs(count: nat)
                | Defb(items: seq<string>) | Op(text: OpText, operand: Operand)

  // ---- first pass: symbols ----

  function SizeOf(l: Line): nat
  {
    match l
    case Defs(n) => n
    case Defb(items) => |items|
    case Op(t, _) => (match ReadText(t) case None => 0 case Some(op) => Length(op))
    case _ => 0
  }

  function Size(lines: seq<Line>): nat
  {
    if lines == [] then 0 else SizeOf(lines[0]) + Size(lines[1..])
  }

  datatype Definition = Definition(name: string, value: int)

  function DefinitionsOf(l: Line, pc: int): seq<Definition>
  {
    match l
    case Label(n) => [Definition(n, pc)]
    case Equ(n, t) => [Definition(n, ReadLiteral(t))]
    case _ => []
  }

  function Definitions(lines: seq<Line>, pc: int): seq<Definition>
  {
    if lines == [] then [] else DefinitionsOf(lines[0], pc) + Definitions(lines[1..], pc + SizeOf(lines[0]))
  }

  lemma {:induction false} SizeConcat(a: seq<Line>, b: seq<Line>)
    ensures Size(a + b) == Size(a) + Size(b)
  {
    hide SizeOf;
    if a == [] {
      assert a + b == b;
    } else {
      SizeConcat(a[1..], b);
      assert (a + b)[1..] == a[1..] + b;
    }
  }

  lemma DefinitionsStep(lines: seq<Line>, pc: int)
    ensures Definitions(lines, pc) == if lines == [] then [] else
              DefinitionsOf(lines[0], pc) + Definitions(lines[1..], pc + SizeOf(lines[0]))
    ensures Size(lines) == if lines == [] then 0 else SizeOf(lines[0]) + Size(lines[1..])
  {
  }

  lemma SizeStep(lines: seq<Line>)
    ensures Size(lines) == if lines == [] then 0 else SizeOf(lines[0]) + Size(lines[1..])
  {
    hide SizeOf;
  }

  lemma {:induction false} DefinitionsConcat(a: seq<Line>, b: seq<Line>, pc: int)
    ensures Definitions(a + b, pc) == Definitions(a, pc) + Definitions(b, pc + Size(a))
  {
    hide SizeOf, DefinitionsOf, Definitions, Size;
    DefinitionsStep(a, pc);
    if a == [] {
      assert a + b == b;
    } else {
      DefinitionsStep(a + b, pc);
      DefinitionsConcat(a[1..], b, pc + SizeOf(a[0]));
      assert (a + b)[1..] == a[1..] + b;
    }
  }

  ghost predicate DefinedOnce(defs: seq<Definition>)
  {
    forall i, j | 0 <= i < j < |defs| :: defs[i].name != defs[j].name
  }

  function Values(defs: seq<Definition>): map<string, int>
  {
    if defs == [] then map[] else Values(defs[..|defs| - 1])[defs[|defs| - 1].name := defs[|defs| - 1].value]
  }

  lemma {:induction false} ValuesAre(defs: seq<Definition>)
    ensures forall n :: n in Values(defs) <==> exists d <- defs :: d.name == n
    ensures forall n :: n in Values(defs) ==> Definition(n, Values(defs)[n]) in defs
  {
    if defs != [] {
      var p, d := defs[..|defs| - 1], defs[|defs| - 1];
      ValuesAre(p);
      assert defs == p + [d];
    }
  }

  // ---- second pass: bytes ----

  function ValueOf(o: Operand, env: map<string, int>): Word
  {
    match o
    case NoOperand => 0
    case Num(t) => ToWord(ReadLiteral(t))
    case Sym(n) => if n in env then ToWord(env[n]) else 0
  }

  /** RST is told apart by its operand, everything else by its opcode. */
  function Encode(op: Byte, v: Word): (r: seq<Byte>)
    ensures |r| == Length(op)
  {
    if IsRst(op) then [ToByte(0xC7 + v)]
    else match Length(op)
         case 1 => [op]
         case 2 => [op, Lo(v)]
         case _ => [op, Lo(v), Hi(v)]
  }

  function BytesOf(l: Line, env: map<string, int>): (r: seq<Byte>)
    ensures |r| == SizeOf(l)
  {
    match l
    case Defs(n) => seq(n, _ => 0)
    case Defb(items) => seq(|items|, i requires 0 <= i < |items| => ToByte(ReadLiteral(items[i])))
    case Op(t, o) => (match ReadText(t) case None => [] case Some(op) => Encode(op, ValueOf(o, env)))
    case _ => []
  }

  function Assemble(lines: seq<Line>, env: map<string, int>): (r: seq<Byte>)
    ensures |r| == Size(lines)
  {
    if lines == [] then [] else BytesOf(lines[0], env) + Assemble(lines[1..], env)
  }

  lemma {:induction false} AssembleConcat(a: seq<Line>, b: seq<Line>, env: map<string, int>)
    ensures Assemble(a + b, env) == Assemble(a, env) + Assemble(b, env)
  {
    hide BytesOf, SizeOf, Size;
    if a == [] {
      assert a + b == b;
    } else {
      AssembleConcat(a[1..], b, env);
      assert (a + b)[1..] == a[1..] + b && (a + b)[0] == a[0];
      var x, y, z := BytesOf(a[0], env), Assemble(a[1..], env), Assemble(b, env);
      assert Assemble(a + b, env) == x + (y + z) == (x + y) + z;
    }
  }

  /** RST takes one of eight operands. */
  predicate IsVector(v: int) { 0 <= v < 64 && v % 8 == 0 }

  /** The second pass accepts the line: its symbol is defined, and an RST has an operand it may have. */
  predicate Fits(l: Line, env: map<string, int>)
  {
    l.Op? ==>
      && (l.operand.Sym? ==> l.operand.symbol in env)
      && (ReadText(l.text).Some? && IsRst(ReadText(l.text).value) ==> IsVector(ValueOf(l.operand, env)))
  }

  ghost predicate AllFit(lines: seq<Line>, env: map<string, int>) { forall l <- lines :: Fits(l, env) }

  /** Every instruction is one the assembler knows, and every number is a literal. */
  predicate Readable(l: Line)
  {
    match l
    case Equ(_, t) => IsLiteral(t)
    case Defb(items) => forall i | 0 <= i < |items| :: IsLiteral(items[i])
    case Op(t, o) => ReadText(t).Some? && (o.Num? ==> IsLiteral(o.literal))
    case _ => true
  }

  ghost predicate AllReadable(lines: seq<Line>) { forall l <- lines :: Readable(l) }

  /** Both passes succeed and give these bytes. */
  ghost predicate AssemblesTo(lines: seq<Line>, origin: Word, rom: seq<Byte>)
  {
    var defs := Definitions(lines, origin);
    && AllReadable(lines) && DefinedOnce(defs) && AllFit(lines, Values(defs))
    && Assemble(lines, Values(defs)) == rom
  }
}
