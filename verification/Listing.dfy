/** How the items of the layout are written (emitInstruction, emitAddressLabel, emitByteRows,
    emitLayoutAsm) and what the assembler makes of them. */
module Listing {
  import opened Words
  import opened Wrappers
  import opened Numbers
  import opened Analyzer
  import opened Mnemonics
  import opened Literals
  import opened Asm
  import L = Layout
  import opened Ownership

  /** What the emitter looks names up in. */
  datatype Context = Context(rom: seq<Byte>, origin: Word, names: map<Word, string>,
                             references: seq<Word>, objects: seq<RdbObject>)

  function End(c: Context): int { c.origin + |c.rom| }

  // ---- instructions ----

  /** resolveName, or the number. */
  function Named(c: Context, v: Word, upper: bool): Operand
  {
    if v in c.names && c.names[v] != "" then Sym(c.names[v]) else Num(WordLiteral(v, upper))
  }

  predicate AddressesMemory(op: Byte) { op == 0x22 || op == 0x2A || op == 0x32 || op == 0x3A }

  function OperandValue(img: Image, i: Instr): Word
  {
    if i.size == 2 then img[ToWord(i.address + 1)] else Pair(img[ToWord(i.address + 2)], img[ToWord(i.address + 1)])
  }

  /** Jumps, calls and RST name their target; LDA, STA, LHLD and SHLD name their address where it has a
      name; other operands stay numbers, in lower case. */
  function EmitInstruction(c: Context, img: Image, i: Instr): Line
  {
    if PrintsDb(i.opcode) then Defb([ByteLiteral(i.opcode, false)])
    else if i.hasTarget then Op(TextOf(i.opcode), Named(c, i.target, true))
    else if i.size == 1 then Op(TextOf(i.opcode), NoOperand)
    else if AddressesMemory(i.opcode) then Op(TextOf(i.opcode), Named(c, OperandValue(img, i), false))
    else if i.size == 2 then Op(TextOf(i.opcode), Num(ByteLiteral(img[ToWord(i.address + 1)], false)))
    else Op(TextOf(i.opcode), Num(WordLiteral(OperandValue(img, i), false)))
  }

  /** Symbols have the value of the address they stand for. */
  ghost predicate Right(c: Context, env: map<string, int>)
  {
    forall a <- c.names :: c.names[a] != "" && c.names[a] in env && env[c.names[a]] == a
  }

  ghost predicate WordValues(env: map<string, int>) { forall n <- env :: 0 <= env[n] < 65536 }

  lemma NamedValue(c: Context, env: map<string, int>, v: Word, upper: bool)
    ensures var o := Named(c, v, upper);
            if o.Sym? then v in c.names && o.symbol == c.names[v]
            else o.Num? && IsLiteral(o.literal) && ValueOf(o, env) == v
  {
    hide WordLiteral;
    WordReads(v, upper);
  }

  lemma EncodeReads(op: Byte, v: Word, b1: Byte, b2: Byte)
    requires IsRst(op) ==> v == op / 8 % 8 * 8
    requires !IsRst(op) && Length(op) == 2 ==> v == b1
    requires Length(op) == 3 ==> v == Pair(b2, b1)
    ensures Encode(op, v) == [op, b1, b2][..Length(op)]
  {
    if IsRst(op) {
      assert op == 0xC0 + op / 8 % 8 * 8 + 7;
    }
  }

  lemma DenotedLength(op: Byte)
    ensures Length(Denoted(op)) == Length(op) && (Alias(op) || PrintsDb(op) ==> Length(op) == 1)
    ensures PrintsDb(op) ==> !Alias(op) && !HasAddressOperand(op) && !IsRst(op)
  {
  }

  /** What reaches the assembler encodes the opcode that was decoded, except for the aliases of NOP. */
  lemma DenotedEncodes(op: Byte, v: Word)
    requires !PrintsDb(op)
    ensures Encode(Denoted(op), v) == if Alias(op) then [0] else Encode(op, v)
  {
  }

  lemma ImageReads(rom: seq<Byte>, origin: Word, a: int)
    requires origin <= a < origin + |rom| && origin + |rom| <= 65536
    ensures ImageOf(rom, origin)[a] == rom[a - origin]
  {
  }

  /** What the decoded fields are, for an instruction that does not run off the address space. */
  lemma DecodedFields(img: Image, i: Instr)
    requires i == Disassemble(img, i.address) && i.address + i.size <= 65536
    ensures i.opcode == img[i.address] && i.size == Length(i.opcode)
    ensures i.hasTarget <==> HasAddressOperand(i.opcode) || IsRst(i.opcode)
    ensures HasAddressOperand(i.opcode) ==> i.size == 3 && i.target == Pair(img[i.address + 2], img[i.address + 1])
    ensures IsRst(i.opcode) ==> i.size == 1 && i.target == i.opcode / 8 % 8 * 8
    ensures i.size == 2 ==> OperandValue(img, i) == img[i.address + 1]
    ensures i.size == 3 ==> OperandValue(img, i) == Pair(img[i.address + 2], img[i.address + 1])
  {
    AddressLength(img[i.address]);
  }

  /** The operand's value as printed. */
  function Shown(img: Image, i: Instr): Word
  {
    if i.hasTarget then i.target else if i.size == 1 then 0 else OperandValue(img, i)
  }

  /** The operand is printed as a name. */
  predicate PrintsName(c: Context, img: Image, i: Instr)
  {
    var l := EmitInstruction(c, img, i);
    l.Op? && l.operand.Sym?
  }

  /** The name printed for the operand has the operand's value. */
  predicate Serves(c: Context, img: Image, i: Instr, env: map<string, int>)
  {
    PrintsName(c, img, i) ==>
      Shown(img, i) in c.names && c.names[Shown(img, i)] in env && env[c.names[Shown(img, i)]] == Shown(img, i)
  }

  /** The line is readable, has the instruction's size, and gives what its opcode denotes. */
  lemma EmittedOp(c: Context, img: Image, i: Instr, env: map<string, int>)
    requires !PrintsDb(i.opcode)
    ensures var l := EmitInstruction(c, img, i);
            && l.Op? && Readable(l) && SizeOf(l) == Length(Denoted(i.opcode))
            && ReadText(l.text) == Some(Denoted(i.opcode))
            && BytesOf(l, env) == Encode(Denoted(i.opcode), ValueOf(l.operand, env))
            && (if l.operand.Sym? then Shown(img, i) in c.names && l.operand.symbol == c.names[Shown(img, i)]
                else ValueOf(l.operand, env) == Shown(img, i))
            && (l.operand.Sym? ==> i.hasTarget || (i.size != 1 && AddressesMemory(i.opcode)))
  {
    hide Denoted, Encode, Named, Length, TextOf, ReadText, ByteLiteral, WordLiteral, IsLiteral, ReadLiteral,
      PrintsDb, AddressesMemory, Pair;
    TextReads(i.opcode);
    NamedValue(c, env, Shown(img, i), true);
    NamedValue(c, env, Shown(img, i), false);
    WordReads(OperandValue(img, i), false);
    ByteReads(img[ToWord(i.address + 1)], false);
  }

  lemma EmittedDb(c: Context, img: Image, i: Instr, env: map<string, int>)
    requires PrintsDb(i.opcode)
    ensures var l := EmitInstruction(c, img, i);
            l.Defb? && Readable(l) && SizeOf(l) == 1 && BytesOf(l, env) == [i.opcode]
  {
    hide ByteLiteral, IsLiteral, ReadLiteral;
    ByteReads(i.opcode, false);
  }

  lemma EmittedLine(c: Context, img: Image, i: Instr)
    ensures var l := EmitInstruction(c, img, i); (l.Op? || l.Defb?) && Readable(l) && SizeOf(l) == Length(i.opcode)
  {
    hide EmitInstruction, Encode, Length, Alias, Denoted, BytesOf, SizeOf, Readable, Shown;
    DenotedLength(i.opcode);
    if PrintsDb(i.opcode) {
      EmittedDb(c, img, i, map[]);
    } else {
      EmittedOp(c, img, i, map[]);
    }
  }

  /** Where an opcode carries an address, the bytes tell which. */
  lemma EncodeTells(op: Byte, v: Word, w: Word)
    requires if IsRst(op) then IsVector(v) && IsVector(w) else Length(op) == 3
    ensures Encode(op, v) == Encode(op, w) ==> v == w
  {
    hide Length, IsRst;
    if IsRst(op) {
      assert ToByte(0xC7 + v) == if v < 57 then 0xC7 + v else v - 57;
      assert ToByte(0xC7 + w) == if w < 57 then 0xC7 + w else w - 57;
    } else {
      DivUnique(v, 256, Hi(v), Lo(v));
      DivUnique(w, 256, Hi(w), Lo(w));
    }
  }

  lemma DenotedRst(op: Byte)
    ensures IsRst(Denoted(op)) <==> IsRst(op)
    ensures AddressesMemory(op) ==> Length(op) == 3 && !IsRst(op)
    ensures IsRst(op) ==> IsVector(op / 8 % 8 * 8)
  {
  }

  /** The printed value encodes the bytes that were decoded. */
  lemma ShownEncodes(img: Image, i: Instr)
    requires i == Disassemble(img, i.address) && i.address + i.size <= 65536
    ensures Encode(i.opcode, Shown(img, i)) == img[i.address..i.address + i.size]
  {
    var op := i.opcode;
    DecodedFields(img, i);
    AddressLength(op);
    hide Length, Encode, Disassemble, OperandValue, HasAddressOperand, IsRst;
    var b1 := if i.size >= 2 then img[i.address + 1] else 0;
    var b2 := if i.size == 3 then img[i.address + 2] else 0;
    assert img[i.address..i.address + i.size] == [op, b1, b2][..i.size];
    EncodeReads(op, Shown(img, i), b1, b2);
  }

  lemma SliceReads(rom: seq<Byte>, origin: Word, a: int, n: nat)
    requires origin <= a && a + n <= origin + |rom| && origin + |rom| <= 65536
    ensures ImageOf(rom, origin)[a..a + n] == rom[a - origin..a - origin + n]
  {
  }

  /** A printed instruction of the window is accepted and assembles to its own bytes if and only if it is no
      alias of NOP and the name it uses, if any, has its operand's value. */
  lemma InstructionBytes(c: Context, i: Instr, env: map<string, int>)
    requires c.origin + |c.rom| <= 65536 && i == Disassemble(ImageOf(c.rom, c.origin), i.address)
    requires InWindow(i, c.origin, End(c)) && WordValues(env)
    ensures var img := ImageOf(c.rom, c.origin);
            var l := EmitInstruction(c, img, i);
            && (Fits(l, env) && BytesOf(l, env) == c.rom[i.address - c.origin..i.address - c.origin + i.size]
                <==> !Alias(i.opcode) && Serves(c, img, i, env))
            && (Alias(i.opcode) ==> BytesOf(l, env) == [0])
  {
    hide Length, Encode, Disassemble, ImageOf, HasAddressOperand, IsRst, Alias, EmitInstruction, BytesOf, Shown, SizeOf,
      Readable, PrintsDb, Denoted, AddressesMemory, ReadText, ValueOf, IsVector, Serves, Fits;
    var img, op := ImageOf(c.rom, c.origin), i.opcode;
    ImageReads(c.rom, c.origin, i.address);
    SliceReads(c.rom, c.origin, i.address, i.size);
    ShownEncodes(img, i);
    DecodedOperand(img, i);
    if PrintsDb(op) {
      DbMeaning(c, img, i, env);
    } else {
      OpMeaning(c, img, i, env);
    }
  }

  /** What kinds of operand a decoded instruction has. */
  lemma DecodedOperand(img: Image, i: Instr)
    requires i == Disassemble(img, i.address) && i.address + i.size <= 65536
    ensures i.size == Length(i.opcode) && i.opcode == img[i.address]
    ensures i.hasTarget ==> IsRst(i.opcode) || Length(i.opcode) == 3
    ensures IsRst(i.opcode) ==> IsVector(Shown(img, i))
    ensures Alias(i.opcode) ==> !i.hasTarget
  {
    DecodedFields(img, i);
    AddressLength(i.opcode);
    DenotedRst(i.opcode);
    AliasPlain(i.opcode);
    hide Disassemble, OperandValue, Alias, Length, IsVector, HasAddressOperand, IsRst;
  }

  lemma AliasPlain(op: Byte)
    ensures Alias(op) ==> !HasAddressOperand(op) && !IsRst(op) && !AddressesMemory(op) && Length(op) == 1 && op != 0
  {
  }

  lemma DbMeaning(c: Context, img: Image, i: Instr, env: map<string, int>)
    requires PrintsDb(i.opcode) && i.address + i.size <= 65536 && i.size == Length(i.opcode)
             && i.opcode == img[i.address]
    ensures var l := EmitInstruction(c, img, i);
            && Fits(l, env) && BytesOf(l, env) == img[i.address..i.address + i.size] && !Alias(i.opcode)
            && Serves(c, img, i, env)
  {
    hide EmitInstruction, BytesOf, SizeOf, Readable, PrintsDb, Alias, Length;
    EmittedDb(c, img, i, env);
    DenotedLength(i.opcode);
    assert img[i.address..i.address + 1] == [img[i.address]];
  }

  lemma OpMeaning(c: Context, img: Image, i: Instr, env: map<string, int>)
    requires !PrintsDb(i.opcode) && i.address + i.size <= 65536 && i.size == Length(i.opcode)
             && i.opcode == img[i.address]
    requires Encode(i.opcode, Shown(img, i)) == img[i.address..i.address + i.size] && WordValues(env)
    requires (i.hasTarget ==> IsRst(i.opcode) || Length(i.opcode) == 3) && (IsRst(i.opcode) ==> IsVector(Shown(img, i)))
    requires Alias(i.opcode) ==> !i.hasTarget
    ensures var l := EmitInstruction(c, img, i);
            && (Fits(l, env) && BytesOf(l, env) == img[i.address..i.address + i.size]
                <==> !Alias(i.opcode) && Serves(c, img, i, env))
            && (Alias(i.opcode) ==> BytesOf(l, env) == [0])
  {
    hide EmitInstruction, BytesOf, SizeOf, Readable, PrintsDb, Alias, Length, Denoted, Encode, IsRst, Shown, IsVector,
      ReadText, AddressesMemory;
    var op, l := i.opcode, EmitInstruction(c, img, i);
    EmittedOp(c, img, i, env);
    DenotedEncodes(op, ValueOf(l.operand, env));
    DenotedRst(op);
    AliasPlain(op);
    if Alias(op) {
      assert img[i.address..i.address + i.size][0] == op;
    } else if l.operand.Sym? {
      if IsRst(op) ==> IsVector(ValueOf(l.operand, env)) {
        EncodeTells(op, ValueOf(l.operand, env), Shown(img, i));
      }
    }
  }

  lemma AddressLength(op: Byte)
    ensures HasAddressOperand(op) ==> Length(op) == 3
    ensures IsRst(op) ==> Length(op) == 1 && !HasAddressOperand(op)
  {
  }

  // ---- labels and rows ----

  function Resolve(c: Context, a: Word): string { if a in c.names then c.names[a] else "" }

  predicate WorthPrinting(c: Context, a: Word)
  {
    Resolve(c, a) != GenerateLabel(a) || a in c.references || exists o <- c.objects :: o.address == a
  }

  function AddressLabel(c: Context, a: Word): seq<Line>
  {
    if Resolve(c, a) != "" && WorthPrinting(c, a) then [Asm.Label(Resolve(c, a))] else []
  }

  function ByteItems(bytes: seq<Byte>): (items: seq<string>)
    ensures |items| == |bytes|
  {
    seq(|bytes|, i requires 0 <= i < |bytes| => ByteLiteral(bytes[i], true))
  }

  lemma ItemsRead(bytes: seq<Byte>, env: map<string, int>)
    ensures BytesOf(Defb(ByteItems(bytes)), env) == bytes && Readable(Defb(ByteItems(bytes)))
  {
    hide ByteLiteral, IsLiteral, ReadLiteral;
    forall i | 0 <= i < |bytes|
      ensures ToByte(ReadLiteral(ByteItems(bytes)[i])) == bytes[i] && IsLiteral(ByteItems(bytes)[i])
    {
      ByteReads(bytes[i], true);
    }
  }

  /** defb lines of eight bytes. */
  function Rows(bytes: seq<Byte>): seq<Line>
  {
    if bytes == [] then []
    else if |bytes| <= 8 then [Defb(ByteItems(bytes))]
    else [Defb(ByteItems(bytes[..8]))] + Rows(bytes[8..])
  }

  lemma {:induction false} RowsAssemble(bytes: seq<Byte>, env: map<string, int>, pc: int)
    ensures Assemble(Rows(bytes), env) == bytes && Size(Rows(bytes)) == |bytes|
    ensures Definitions(Rows(bytes), pc) == []
    ensures forall l <- Rows(bytes) :: l.Defb? && 0 < |l.items| <= 8 && Readable(l)
  {
    hide ByteItems, BytesOf, Readable;
    if bytes != [] && |bytes| > 8 {
      RowsAssemble(bytes[8..], env, pc + 8);
      ItemsRead(bytes[..8], env);
      DefinitionsStep(Rows(bytes), pc);
      assert bytes == bytes[..8] + bytes[8..];
    } else if bytes != [] {
      ItemsRead(bytes, env);
      DefinitionsStep(Rows(bytes), pc);
      assert Rows(bytes)[1..] == [];
    }
  }

  method EmitByteRows(c: Context, start: int, end: int) returns (lines: seq<Line>)
    requires c.origin <= start <= end < End(c)
    ensures lines == Rows(c.rom[start - c.origin..end + 1 - c.origin])
  {
    hide Rows, ByteItems, RowsLeft;
    lines := [];
    var o := c.origin;
    FirstRows(c.rom, start - o, end + 1 - o);
    ghost var whole := Rows(c.rom[start - o..end + 1 - o]);
    var a := start;
    while a <= end
      invariant start <= a && c.origin == o
      invariant if a <= end then RowsLeft(whole, lines, c.rom, a - o, end + 1 - o) else whole == lines
    {
      var last := if end + 1 < a + 8 then end + 1 else a + 8;
      var row := EmitRow(c, a, last);
      NextRow(whole, lines, c.rom, a - o, end + 1 - o);
      lines := lines + [Defb(row)];
      a := a + 8;
    }
  }

  /** What is still to be printed, from offset a on. */
  predicate RowsLeft(whole: seq<Line>, lines: seq<Line>, rom: seq<Byte>, a: int, end: int)
  {
    0 <= a < end <= |rom| && whole == lines + Rows(rom[a..end])
  }

  lemma FirstRows(rom: seq<Byte>, a: nat, end: nat)
    requires a < end <= |rom|
    ensures RowsLeft(Rows(rom[a..end]), [], rom, a, end)
  {
    hide Rows;
  }

  lemma NextRow(whole: seq<Line>, lines: seq<Line>, rom: seq<Byte>, a: nat, end: nat)
    requires RowsLeft(whole, lines, rom, a, end)
    ensures a + 8 < end ==> RowsLeft(whole, lines + [Defb(ByteItems(rom[a..a + 8]))], rom, a + 8, end)
    ensures a + 8 >= end ==> whole == lines + [Defb(ByteItems(rom[a..end]))]
  {
    hide Rows, ByteItems;
    RowsStep(rom, a, end);
  }

  lemma RowsStep(rom: seq<Byte>, a: nat, end: nat)
    requires a < end <= |rom|
    ensures Rows(rom[a..end]) == if end - a <= 8 then [Defb(ByteItems(rom[a..end]))]
                                 else [Defb(ByteItems(rom[a..a + 8]))] + Rows(rom[a + 8..end])
  {
    hide ByteItems;
    var rest := rom[a..end];
    if |rest| > 8 {
      assert rest[..8] == rom[a..a + 8] && rest[8..] == rom[a + 8..end];
    }
  }

  method EmitRow(c: Context, a: int, last: int) returns (row: seq<string>)
    requires c.origin <= a <= last <= End(c)
    ensures row == ByteItems(c.rom[a - c.origin..last - c.origin])
  {
    hide ByteLiteral;
    row := [];
    for b := a to last
      invariant row == ByteItems(c.rom[a - c.origin..b - c.origin])
    {
      row := row + [ByteLiteral(if b - c.origin < |c.rom| then c.rom[b - c.origin] else 0, true)];
    }
  }

  // ---- items ----

  function LinesOf(c: Context, x: L.Item): seq<Line>
    requires L.Within(x, c.origin, End(c)) && End(c) <= 65536
  {
    match x.kind
    case Code(i) => AddressLabel(c, x.start) + [EmitInstruction(c, ImageOf(c.rom, c.origin), i)]
    case _ => (if x.name != "" then [Asm.Label(x.name)] else []) + Rows(c.rom[x.start - c.origin..x.end + 1 - c.origin])
  }

  function PlacedLines(c: Context, p: L.Placed): seq<Line>
    requires L.Within(p.item, c.origin, End(c)) && End(c) <= 65536
  {
    (if p.item.start > p.at then [Defs(p.item.start - p.at)] else []) + LinesOf(c, p.item)
  }

  ghost predicate AllWithin(c: Context, placed: seq<L.Placed>)
  {
    forall p <- placed :: L.Within(p.item, c.origin, End(c))
  }

  function Render(c: Context, placed: seq<L.Placed>): seq<Line>
    requires AllWithin(c, placed) && End(c) <= 65536
  {
    if placed == [] then [] else PlacedLines(c, placed[0]) + Render(c, placed[1..])
  }

  /** An item is what the analysis and the ownership pass made of the ROM. */
  ghost predicate Genuine(c: Context, x: L.Item)
  {
    && L.Within(x, c.origin, End(c))
    && match x.kind
       case Code(i) => i == Disassemble(ImageOf(c.rom, c.origin), i.address) && InWindow(i, c.origin, End(c))
                       && x.start == i.address && x.end == i.address + i.size - 1
       case _ => x.name != "" && Claims(c.objects, x.name, x.start)
  }

  ghost predicate NamesClaimed(c: Context)
  {
    forall a <- c.names :: c.names[a] != "" && Claims(c.objects, c.names[a], a)
  }

  predicate IsAlias(x: L.Item) { x.kind.Code? && Alias(x.kind.instr.opcode) }

  lemma OneLine(a: seq<Line>, l: Line, env: map<string, int>, pc: int)
    requires |a| <= 1 && (l.Op? || l.Defb?) && forall x <- a :: x.Label?
    ensures Assemble(a + [l], env) == BytesOf(l, env) && Size(a + [l]) == SizeOf(l)
    ensures Definitions(a + [l], pc) == if a == [] then [] else [Definition(a[0].name, pc)]
  {
    hide SizeOf, BytesOf, Size, Assemble;
    LastLine(l, env, pc);
    if a == [] {
      assert a + [l] == [l];
    } else {
      assert a == [a[0]] && a[0].Label? && a[0] == Asm.Label(a[0].name);
      LabelFirst(a[0].name, [l], env, pc);
    }
  }

  lemma LastLine(l: Line, env: map<string, int>, pc: int)
    requires l.Op? || l.Defb?
    ensures Assemble([l], env) == BytesOf(l, env) && Size([l]) == SizeOf(l) && Definitions([l], pc) == []
  {
    hide SizeOf, BytesOf;
    assert [l][1..] == [];
    DefinitionsStep([l], pc);
    DefinitionsStep([], pc + SizeOf(l));
    SizeStep([l]);
    assert Assemble([], env) == [];
  }

  lemma LabelFirst(n: string, b: seq<Line>, env: map<string, int>, pc: int)
    ensures Assemble([Asm.Label(n)] + b, env) == Assemble(b, env) && Size([Asm.Label(n)] + b) == Size(b)
    ensures Definitions([Asm.Label(n)] + b, pc) == [Definition(n, pc)] + Definitions(b, pc)
  {
    assert ([Asm.Label(n)] + b)[1..] == b;
  }

  /** The item's lines are accepted and give its bytes of the window. */
  ghost predicate GivesItsBytes(c: Context, x: L.Item, env: map<string, int>)
    requires L.Within(x, c.origin, End(c)) && End(c) <= 65536
  {
    && AllFit(LinesOf(c, x), env)
    && Assemble(LinesOf(c, x), env) == c.rom[x.start - c.origin..x.end + 1 - c.origin]
  }

  /** The operand name of a printed instruction, if there is one, has the operand's value. */
  predicate ItemServes(c: Context, x: L.Item, env: map<string, int>)
  {
    x.kind.Code? ==> Serves(c, ImageOf(c.rom, c.origin), x.kind.instr, env)
  }

  /** The label in front of an item, or none. */
  function LabelOf(c: Context, x: L.Item): string
  {
    match x.kind
    case Code(i) => if WorthPrinting(c, i.address) then Resolve(c, i.address) else ""
    case _ => x.name
  }

  function LabelDefs(c: Context, x: L.Item): seq<Definition>
  {
    if LabelOf(c, x) == "" then [] else [Definition(LabelOf(c, x), x.start)]
  }

  lemma CodeItem(c: Context, x: L.Item, env: map<string, int>)
    requires Genuine(c, x) && End(c) <= 65536 && x.kind.Code?
    ensures Size(LinesOf(c, x)) == x.end + 1 - x.start && Definitions(LinesOf(c, x), x.start) == LabelDefs(c, x)
    ensures WordValues(env) ==> (GivesItsBytes(c, x, env) <==> !IsAlias(x) && ItemServes(c, x, env))
    ensures AllReadable(LinesOf(c, x))
  {
    hide BytesOf, HasAddressOperand, IsRst, OperandValue, Disassemble, ImageOf, EmitInstruction, Length, Alias, Denoted,
      Encode, Claims, Assemble, Size, Definitions, WorthPrinting, Shown, SizeOf, Readable, PrintsDb, Fits, Serves;
    var i := x.kind.instr;
    var l := EmitInstruction(c, ImageOf(c.rom, c.origin), i);
    DecodedFields(ImageOf(c.rom, c.origin), i);
    EmittedLine(c, ImageOf(c.rom, c.origin), i);
    OneLine(AddressLabel(c, x.start), l, env, x.start);
    LabelsPlain(AddressLabel(c, x.start), l, env);
    if WordValues(env) {
      InstructionBytes(c, i, env);
    }
  }

  lemma LabelsPlain(a: seq<Line>, l: Line, env: map<string, int>)
    requires forall x <- a :: x.Label?
    ensures Readable(l) ==> AllReadable(a + [l])
    ensures AllFit(a + [l], env) <==> Fits(l, env)
  {
    hide ReadText, IsLiteral;
    assert l in a + [l];
  }

  lemma DataItem(c: Context, x: L.Item, env: map<string, int>)
    requires Genuine(c, x) && End(c) <= 65536 && !x.kind.Code?
    ensures Size(LinesOf(c, x)) == x.end + 1 - x.start && Definitions(LinesOf(c, x), x.start) == LabelDefs(c, x)
    ensures GivesItsBytes(c, x, env)
    ensures AllReadable(LinesOf(c, x))
  {
    hide Claims, Rows, Assemble, Size, Definitions;
    var slice := c.rom[x.start - c.origin..x.end + 1 - c.origin];
    RowsAssemble(slice, env, x.start);
    LabelFirst(x.name, Rows(slice), env, x.start);
  }

  /** One item takes up its own interval, defines the label in front of it at its own address, and is accepted and
      gives its own bytes exactly when it is no alias of NOP and its operand's name has the operand's value. */
  lemma ItemMeaning(c: Context, x: L.Item, env: map<string, int>)
    requires Genuine(c, x) && End(c) <= 65536 && NamesClaimed(c)
    ensures Size(LinesOf(c, x)) == x.end + 1 - x.start && Definitions(LinesOf(c, x), x.start) == LabelDefs(c, x)
    ensures WordValues(env) ==> (GivesItsBytes(c, x, env) <==> !IsAlias(x) && ItemServes(c, x, env))
    ensures LabelOf(c, x) != "" ==> Claims(c.objects, LabelOf(c, x), x.start)
    ensures AllReadable(LinesOf(c, x))
  {
    hide LinesOf, Disassemble, ImageOf, InWindow, Alias, Claims, Definitions, Assemble, Size, WorthPrinting,
      AllReadable, AllFit, Serves, LabelDefs;
    if x.kind.Code? {
      CodeItem(c, x, env);
    } else {
      DataItem(c, x, env);
    }
  }

  lemma OperandName(c: Context, img: Image, i: Instr)
    ensures var l := EmitInstruction(c, img, i);
            && (l.Op? || l.Defb?)
            && (l.Op? && l.operand.Sym? ==> exists a <- c.names :: c.names[a] == l.operand.symbol)
  {
    hide OperandValue, TextOf, ByteLiteral, WordLiteral;
  }

  /** Symbols used as operands are names of the context. */
  lemma ItemUses(c: Context, x: L.Item, l: Line)
    requires Genuine(c, x) && End(c) <= 65536 && l in LinesOf(c, x) && l.Op? && l.operand.Sym?
    ensures exists a <- c.names :: c.names[a] == l.operand.symbol
  {
    hide Disassemble, InWindow, Claims, ImageOf, EmitInstruction, WorthPrinting, Rows, Assemble, Size, Definitions;
    match x.kind {
      case Code(i) =>
        OperandName(c, ImageOf(c.rom, c.origin), i);
        assert l == EmitInstruction(c, ImageOf(c.rom, c.origin), i);
      case _ =>
        RowsAssemble(c.rom[x.start - c.origin..x.end + 1 - c.origin], map[], 0);
    }
  }
}
