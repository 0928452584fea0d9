/** Two ROMs that the export does not reproduce, followed through the exporter. */
module ExportExamples {
  import opened Words
  import opened Sorting
  import opened Analyzer
  import opened Mnemonics
  import opened Asm
  import opened Ownership
  import opened Listing
  import opened ExporterClass

  /** Instructions start at different addresses, so there are at most 65536. */
  lemma AtMost64K(img: Image, instrs: seq<Instr>)
    requires Decoded(img, instrs)
    ensures |instrs| <= 65536
  {
    hide Disassemble;
    Starts(instrs);
    BoundedSetSize(StartSet(instrs), 65536);
  }

  ghost function StartSet(instrs: seq<Instr>): set<int>
  {
    set i: nat | i < |instrs| :: instrs[i].address
  }

  lemma {:induction false} Starts(instrs: seq<Instr>)
    requires forall i, j | 0 <= i < j < |instrs| :: instrs[i].address != instrs[j].address
    ensures |StartSet(instrs)| == |instrs|
  {
    if instrs != [] {
      var n := |instrs| - 1;
      var p := instrs[..n];
      Starts(p);
      assert forall i | 0 <= i < n :: p[i] == instrs[i];
      assert StartSet(instrs) == StartSet(p) + {instrs[n].address};
    } else {
      assert StartSet(instrs) == {};
    }
  }

  /** The reset vector cannot be a conflict. */
  lemma ZeroDecoded(img: Image, entries: seq<Word>, instrs: seq<Instr>, conflicts: seq<Word>)
    requires 0 in entries && Closed(img, entries, instrs, conflicts, []) && ConflictsGenuine(instrs, conflicts)
    ensures IsStart(0, instrs)
  {
    hide Successors;
    assert Known(0, instrs, conflicts, []);
  }

  lemma StartsDecoded(img: Image, instrs: seq<Instr>, a: Word)
    requires Decoded(img, instrs) && IsStart(a, instrs)
    ensures Disassemble(img, a) in instrs
  {
    hide Disassemble;
  }

  lemma NoNames()
    ensures NamesUsable([])
  {
  }

  // ---- an undocumented NOP ----

  const NOP_ROM: seq<Byte> := [0x08]

  lemma NopDecodes()
    ensures var i := Disassemble(ImageOf(NOP_ROM, 0), 0); i.address == 0 && i.opcode == 0x08 && i.size == 1
  {
    assert ImageOf(NOP_ROM, 0)[0] == 0x08;
  }

  /** 08 is listed as `nop`, and the listing does not assemble to the ROM. */
  method NopRom() returns (lines: seq<Line>, instrs: seq<Instr>)
    ensures Disassemble(ImageOf(NOP_ROM, 0), 0) in instrs && AliasShows(instrs)
    ensures !AssemblesTo(lines, 0, NOP_ROM)
  {
    hide Disassemble, ImageOf, Closed, Discovered, Decoded, RefsMatch, ConflictsGenuine, NamesUsable, AssemblesTo,
      PartialOverlap, IsStart, OwnerIs, UnitsOk, Attributed;
    var e := new AsmExporter(NOP_ROM, 0, []);
    var r;
    lines, r := e.Export(65537);
    instrs := e.instructions;
    ghost var img := ImageOf(NOP_ROM, 0);
    AtMost64K(img, r.instructions);
    assert 0 in r.entryPoints;
    ZeroDecoded(img, r.entryPoints, r.instructions, r.conflicts);
    StartsDecoded(img, r.instructions, 0);
    NopDecodes();
    NoNames();
    ghost var i := Disassemble(img, 0);
    assert i in instrs && Alias(i.opcode) && !NestedIn(instrs, i);
  }

  // ---- instructions that overlap partially ----

  /** 0: JMP 5; 5: JMP 4; 4: MVI B, C3, whose second byte is the JMP at 5. */
  const OVERLAP_ROM: seq<Byte> := [0xC3, 0x05, 0x00, 0x00, 0x06, 0xC3, 0x04, 0x00]

  function OverlapImage(): Image { ImageOf(OVERLAP_ROM, 0) }

  function ByteAt(a: Word): Byte { if a < 8 then OVERLAP_ROM[a] else 0 }

  lemma ImageBytes(a: Word)
    ensures OverlapImage()[a] == ByteAt(a)
  {
  }

  /** Where every address of the image leads. */
  function Next(a: Word): Word
  {
    if a == 0 then 5 else if a == 5 then 4 else if a == 4 then 6 else ToWord(a + 1)
  }

  lemma OneByteLong(op: Byte)
    requires op == 0x00 || op == 0x04 || op == 0x05
    ensures Length(op) == 1 && ClassifyControlFlow(op) == Sequential
  {
  }

  lemma Flow(a: Word)
    ensures Successors(OverlapImage(), a) == [Next(a)]
    ensures Disassemble(OverlapImage(), a).size == if a == 0 || a == 5 then 3 else if a == 4 then 2 else 1
    ensures Disassemble(OverlapImage(), a).address == a
  {
    hide OverlapImage;
    ImageBytes(a);
    if a == 0 || a == 5 {
      ImageBytes(a + 1);
      ImageBytes(a + 2);
      assert ToWord(a + 1) == a + 1 && ToWord(a + 2) == a + 2;
    } else if a != 4 {
      OneByteLong(ByteAt(a));
    }
  }

  /** Every instruction but the first is led to by an earlier one. */
  lemma LedTo(found: seq<Instr>, entries: seq<Word>, k: nat)
    requires k < |found| && Reached(OverlapImage(), entries, found[..k], found[k].address)
    requires forall e <- entries :: e == 0
    ensures found[k].address == 0 || exists j | 0 <= j < k :: found[k].address == Next(found[j].address)
  {
    hide Successors, OverlapImage, Next;
    var a := found[k].address;
    if a !in entries {
      var i :| i in found[..k] && a in Successors(OverlapImage(), i.address);
      Flow(i.address);
      var j :| 0 <= j < k && found[..k][j] == i;
      assert found[j] == i;
    }
  }

  lemma LeadsBetween(a: Word)
    requires 1 <= Next(a) <= 4
    ensures 1 <= a <= 5
  {
  }

  /** If 5 were not decoded, nothing between 0 and 5 would be. */
  lemma {:induction false} NothingBetween(found: seq<Instr>, entries: seq<Word>, k: nat)
    requires k <= |found| && Grounded(OverlapImage(), entries, found) && forall e <- entries :: e == 0
    requires forall j | 0 <= j < |found| :: found[j].address != 5
    ensures forall j | 0 <= j < k :: !(1 <= found[j].address <= 4)
  {
    hide Reached, OverlapImage, Next;
    if k > 0 {
      NothingBetween(found, entries, k - 1);
      LedTo(found, entries, k - 1);
      if 1 <= found[k - 1].address <= 4 {
        var j :| 0 <= j < k - 1 && found[k - 1].address == Next(found[j].address);
        LeadsBetween(found[j].address);
      }
    }
  }

  /** Both overlapping instructions are decoded. */
  lemma BothDecoded(entries: seq<Word>, instrs: seq<Instr>, conflicts: seq<Word>)
    requires var img := OverlapImage();
             && Decoded(img, instrs) && Discovered(img, entries, instrs) && ConflictsGenuine(instrs, conflicts)
             && Closed(img, entries, instrs, conflicts, []) && forall e: Word :: e in entries <==> e == 0
    ensures Disassemble(OverlapImage(), 5) in instrs && Disassemble(OverlapImage(), 4) in instrs
  {
    hide Successors, OverlapImage, Disassemble;
    var img := OverlapImage();
    ZeroDecoded(img, entries, instrs, conflicts);
    StartsDecoded(img, instrs, 0);
    Flow(0);
    assert Known(5, instrs, conflicts, []);
    if !IsStart(5, instrs) {
      FiveNotMissed(entries, instrs);
      assert false;
    }
    StartsDecoded(img, instrs, 5);
    Flow(5);
    assert Known(4, instrs, conflicts, []);
    if !IsStart(4, instrs) {
      FourNotInside(instrs);
      assert false;
    }
    StartsDecoded(img, instrs, 4);
  }

  lemma FiveNotMissed(entries: seq<Word>, instrs: seq<Instr>)
    requires Decoded(OverlapImage(), instrs) && Discovered(OverlapImage(), entries, instrs)
    requires forall e <- entries :: e == 0
    requires !IsStart(5, instrs)
    ensures !InsideSome(5, instrs)
  {
    hide OverlapImage, Grounded, NoneInsideEarlier, Decoded, IsStart, InsideSome;
    var found: seq<Instr> :|
      multiset(found) == multiset(instrs) && NoneInsideEarlier(found) && Grounded(OverlapImage(), entries, found);
    SameMembers(found, instrs);
    FiveIn(found, entries, instrs);
  }

  lemma FiveIn(found: seq<Instr>, entries: seq<Word>, instrs: seq<Instr>)
    requires Decoded(OverlapImage(), instrs) && Grounded(OverlapImage(), entries, found)
    requires forall e <- entries :: e == 0
    requires !IsStart(5, instrs) && forall i :: i in found <==> i in instrs
    ensures !InsideSome(5, instrs)
  {
    hide OverlapImage, Grounded, Disassemble;
    forall j | 0 <= j < |found| ensures found[j].address != 5 {
      assert found[j] in found;
    }
    NothingBetween(found, entries, |found|);
    forall i <- instrs ensures !Inside(5, i) {
      assert i in found;
      var j :| 0 <= j < |found| && found[j] == i;
      Flow(i.address);
    }
  }

  lemma FourNotInside(instrs: seq<Instr>)
    requires Decoded(OverlapImage(), instrs)
    ensures !InsideSome(4, instrs)
  {
    hide Successors, OverlapImage, Disassemble;
    forall i <- instrs ensures !Inside(4, i) {
      Flow(i.address);
    }
  }

  /** The overlap makes the listing longer than the ROM. */
  method OverlapRom() returns (lines: seq<Line>, instrs: seq<Instr>)
    ensures Disassemble(OverlapImage(), 4) in instrs && Disassemble(OverlapImage(), 5) in instrs
            && PartialOverlap(instrs)
    ensures !AssemblesTo(lines, 0, OVERLAP_ROM)
  {
    hide Disassemble, ImageOf, Closed, Discovered, Decoded, RefsMatch, ConflictsGenuine, NamesUsable, AssemblesTo,
      AliasShows, IsStart, OwnerIs, UnitsOk, Attributed;
    var e := new AsmExporter(OVERLAP_ROM, 0, []);
    var r;
    lines, r := e.Export(65537);
    instrs := e.instructions;
    ghost var img := OverlapImage();
    AtMost64K(img, r.instructions);
    BothDecoded(r.entryPoints, r.instructions, r.conflicts);
    Flow(4);
    Flow(5);
    NoNames();
    ghost var i, j := Disassemble(img, 4), Disassemble(img, 5);
    assert i in instrs && j in instrs;
  }
}
