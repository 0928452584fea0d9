/** Two databases whose names sanitise alike: the export of a ROM they describe does not reproduce it, although
    nothing overlaps and no undocumented NOP shows. */
module NameExamples {
  import opened Words
  import opened Sorting
  import opened Analyzer
  import opened Mnemonics
  import opened Literals
  import opened Asm
  import opened Ownership
  import opened Listing
  import opened Exporter
  import opened ExporterClass
  import opened ExportExamples

  function Variable(a: Word, name: string): RdbObject { RdbObject(a, ObjectType.Variable, name, 1) }

  const DASHED := "a-b"
  const JOINED := "a_b"

  lemma Sanitised()
    ensures SanitizeLabel(DASHED) == JOINED && SanitizeLabel(JOINED) == JOINED
  {
    assert DASHED[1..] == "-b" && DASHED[1..][1..] == "b" && JOINED[1..] == "_b" && JOINED[1..][1..] == "b";
    assert Underscored("b") == "b" && Underscored("-b") == "_b" && Underscored("_b") == "_b";
  }

  lemma NotGenerated(a: Word)
    ensures GenerateLabel(a) != JOINED && GapLabel(a) != JOINED
  {
    hide Hex;
    assert GenerateLabel(a)[0] == 'l' && GapLabel(a)[0] == 'g';
  }

  // ---- where the analysis can get ----

  /** Addresses that hold the entry points and all their successors hold everything decoded. */
  lemma StaysWithin(img: Image, entries: seq<Word>, instrs: seq<Instr>, s: set<Word>)
    requires Discovered(img, entries, instrs) && forall e <- entries :: e in s
    requires forall a <- s, b <- Successors(img, a) :: b in s
    ensures forall i <- instrs :: i.address in s
  {
    hide Successors, Grounded, NoneInsideEarlier;
    var found: seq<Instr> :|
      multiset(found) == multiset(instrs) && NoneInsideEarlier(found) && Grounded(img, entries, found);
    SameMembers(found, instrs);
    FoundWithin(img, entries, found, s, |found|);
    forall i <- instrs ensures i.address in s {
      assert i in found;
      var j :| 0 <= j < |found| && found[j] == i;
    }
  }

  lemma {:induction false} FoundWithin(img: Image, entries: seq<Word>, found: seq<Instr>, s: set<Word>, k: nat)
    requires k <= |found| && Grounded(img, entries, found) && forall e <- entries :: e in s
    requires forall a <- s, b <- Successors(img, a) :: b in s
    ensures forall j | 0 <= j < k :: found[j].address in s
  {
    hide Successors;
    if k > 0 {
      FoundWithin(img, entries, found, s, k - 1);
      assert Reached(img, entries, found[..k - 1], found[k - 1].address);
    }
  }

  // ---- a label printed twice ----

  /** 0: RET; 1 and 2 hold two variables. */
  const CLASH_ROM: seq<Byte> := [0xC9, 0x11, 0x22]
  const CLASH: seq<RdbObject> := [Variable(1, DASHED), Variable(2, JOINED)]

  lemma RetDecodes()
    ensures var i := Disassemble(ImageOf(CLASH_ROM, 0), 0); i.address == 0 && i.opcode == 0xC9 && i.size == 1
    ensures Successors(ImageOf(CLASH_ROM, 0), 0) == []
  {
    assert ImageOf(CLASH_ROM, 0)[0] == 0xC9;
  }

  lemma BothLone(instrs: seq<Instr>)
    requires forall i <- instrs :: i.address == 0 && i.size == 1
    ensures Lone(CLASH, instrs, 0, 3, CLASH[0]) && Lone(CLASH, instrs, 0, 3, CLASH[1])
  {
  }

  lemma ClashLabels(c: Context, instrs: seq<Instr>, units: seq<DataUnit>, owner: seq<int>)
    requires OwnName(units, CLASH[0]) && OwnName(units, CLASH[1])
    ensures LabelsClash(c, instrs, units, owner)
  {
    hide NestedIn, WorthPrinting, GapStart, SanitizeLabel;
    Sanitised();
    assert LabelHere(c, instrs, units, owner, JOINED, 1) && LabelHere(c, instrs, units, owner, JOINED, 2);
  }

  /** Both variables are printed with the label a_b. */
  method ClashRom() returns (lines: seq<Line>, instrs: seq<Instr>)
    ensures !PartialOverlap(instrs) && !AliasShows(instrs) && !AssemblesTo(lines, 0, CLASH_ROM)
  {
    hide Disassemble, ImageOf, Closed, Discovered, Decoded, RefsMatch, ConflictsGenuine, NamesUsable, AssemblesTo,
      OwnerIs, UnitsOk, Attributed, LabelsClash, Misnamed, Lone, OwnName, SymbolsCorrect, NamesFrom;
    var e := new AsmExporter(CLASH_ROM, 0, CLASH);
    var r;
    lines, r := e.Export(65537);
    instrs := e.instructions;
    ghost var img := ImageOf(CLASH_ROM, 0);
    forall x <- r.entryPoints ensures x == 0 {
      assert IsSeed(CLASH, 0, 3, x);
    }
    RetDecodes();
    OnlyRet(img, r.entryPoints, r.instructions);
    BothLone(instrs);
    assert CLASH[0] in e.objects && CLASH[1] in e.objects;
    ClashLabels(e.Names(), instrs, e.dataUnits, e.owner);
  }

  lemma OnlyRet(img: Image, entries: seq<Word>, instrs: seq<Instr>)
    requires Discovered(img, entries, instrs) && (forall e <- entries :: e == 0) && Decoded(img, instrs)
    requires var i := Disassemble(img, 0); i.opcode == 0xC9 && i.size == 1
    requires Successors(img, 0) == []
    ensures forall i <- instrs :: i.address == 0 && i.size == 1 && i.opcode == 0xC9
  {
    hide Disassemble, Discovered, Successors;
    StaysWithin(img, entries, instrs, {0});
  }

  // ---- an operand that names another address ----

  /** 0: LDA 0200; 3: RET. Addresses 0100 and 0200 have the two names. */
  const WRONG_ROM: seq<Byte> := [0x3A, 0x00, 0x02, 0xC9]
  const WRONG: seq<RdbObject> := [Variable(0x100, DASHED), Variable(0x200, JOINED)]

  lemma WrongDecodes()
    ensures var i := Disassemble(ImageOf(WRONG_ROM, 0), 0);
            && i.address == 0 && i.opcode == 0x3A && i.size == 3 && !i.hasTarget
            && Shown(ImageOf(WRONG_ROM, 0), i) == 0x200
    ensures var i := Disassemble(ImageOf(WRONG_ROM, 0), 3); i.address == 3 && i.opcode == 0xC9 && i.size == 1
    ensures Successors(ImageOf(WRONG_ROM, 0), 0) == [3] && Successors(ImageOf(WRONG_ROM, 0), 3) == []
  {
    var img := ImageOf(WRONG_ROM, 0);
    assert img[0] == 0x3A && img[1] == 0x00 && img[2] == 0x02 && img[3] == 0xC9;
  }

  lemma WrongNames(names: map<Word, string>, references: seq<Word>)
    requires NamesFrom(names, WRONG, references)
    ensures 0x100 in names && 0x200 in names && names[0x100] == names[0x200] == JOINED
  {
    hide SanitizeLabel, GenerateLabel;
    Sanitised();
    assert WRONG[..1] == [WRONG[0]] && SanitizeLabel(WRONG[0].name) == JOINED == SanitizeLabel(WRONG[1].name);
    assert NameAt(WRONG, 0x200) == JOINED;
    assert NameAt([WRONG[0]], 0x100) == JOINED && NameAt(WRONG, 0x100) == NameAt(WRONG[..1], 0x100);
  }

  /** Nothing in the window is labelled a_b. */
  lemma NotLabelled(c: Context, instrs: seq<Instr>, units: seq<DataUnit>, owner: seq<int>)
    requires c.origin == 0 && End(c) == 4 && |owner| == 4 && c.objects == WRONG
    requires NamesClaimed(c) && UnitsOk(units, instrs, c.objects, c.origin, End(c))
    requires forall i <- instrs :: i.address < 4
    ensures !Labelled(c, instrs, units, owner, JOINED)
  {
    hide Claims, NestedIn, WorthPrinting, UnitAt, Covers;
    if a :| LabelHere(c, instrs, units, owner, JOINED, a) {
      LabelClaimed(c, instrs, units, owner, JOINED, a);
      ClaimedWhere(a);
    }
  }

  lemma ClaimedWhere(a: int)
    requires Claims(WRONG, JOINED, a)
    ensures a == 0x100 || a == 0x200
  {
    hide SanitizeLabel, GenerateLabel, GapLabel;
    NotGenerated(a);
  }

  lemma WrongMisnamed(c: Context, instrs: seq<Instr>, units: seq<DataUnit>, owner: seq<int>)
    requires c.rom == WRONG_ROM && c.origin == 0 && |owner| == 4 && c.objects == WRONG
    requires NamesFrom(c.names, WRONG, c.references)
    requires UnitsOk(units, instrs, c.objects, c.origin, End(c)) && forall i <- instrs :: i.address < 4
    requires Disassemble(ImageOf(WRONG_ROM, 0), 0) in instrs
    ensures Misnamed(c, instrs, units, owner)
  {
    hide UnitsOk, NamesFrom, ImageOf, Disassemble, Shown, LabelHere, Claims;
    var img := ImageOf(WRONG_ROM, 0);
    var i := Disassemble(img, 0);
    NamesAreClaimed(c.names, WRONG, c.references);
    WrongNames(c.names, c.references);
    NotLabelled(c, instrs, units, owner);
    WrongDecodes();
    PrintsIt(c, img, i);
    assert !NestedIn(instrs, i);
    assert !LeastOf(c.names, JOINED, 0x200);
    assert !LabelHere(c, instrs, units, owner, JOINED, 0x200);
  }

  lemma PrintsIt(c: Context, img: Image, i: Instr)
    requires i.opcode == 0x3A && i.size == 3 && !i.hasTarget && Shown(img, i) in c.names && c.names[Shown(img, i)] != ""
    ensures PrintsName(c, img, i)
  {
    hide TextOf, OperandValue;
  }

  /** The operand 0200 is printed as a_b, which is equated to 0100. */
  method WrongRom() returns (lines: seq<Line>, instrs: seq<Instr>)
    ensures !PartialOverlap(instrs) && !AliasShows(instrs) && !AssemblesTo(lines, 0, WRONG_ROM)
  {
    hide Disassemble, ImageOf, Closed, Discovered, Decoded, RefsMatch, ConflictsGenuine, NamesUsable, AssemblesTo,
      OwnerIs, UnitsOk, Attributed, LabelsClash, Misnamed, Lone, OwnName, SymbolsCorrect, NamesFrom, IsStart,
      Successors;
    var e := new AsmExporter(WRONG_ROM, 0, WRONG);
    var r;
    lines, r := e.Export(65537);
    instrs := e.instructions;
    ghost var img := ImageOf(WRONG_ROM, 0);
    forall x <- r.entryPoints ensures x == 0 {
      assert IsSeed(WRONG, 0, 4, x);
    }
    assert IsSeed(WRONG, 0, 4, 0);
    WrongDecodes();
    AtMost64K(img, r.instructions);
    ZeroDecoded(img, r.entryPoints, r.instructions, r.conflicts);
    StartsDecoded(img, r.instructions, 0);
    LoadThenRet(img, r.entryPoints, r.instructions);
    WrongMisnamed(e.Names(), instrs, e.dataUnits, e.owner);
  }

  lemma LoadThenRet(img: Image, entries: seq<Word>, instrs: seq<Instr>)
    requires Discovered(img, entries, instrs) && (forall e <- entries :: e == 0) && Decoded(img, instrs)
    requires var i := Disassemble(img, 0); i.opcode == 0x3A && i.size == 3
    requires var i := Disassemble(img, 3); i.opcode == 0xC9 && i.size == 1
    requires Successors(img, 0) == [3] && Successors(img, 3) == []
    ensures forall i <- instrs ::
              (i.address == 0 && i.size == 3 && i.opcode == 0x3A) || (i.address == 3 && i.size == 1 && i.opcode == 0xC9)
  {
    hide Disassemble, Discovered, Successors;
    StaysWithin(img, entries, instrs, {0, 3});
  }
}
