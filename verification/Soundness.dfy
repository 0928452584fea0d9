/** The analyser's control flow against the processor that runs the code: the
    successors it queues are the ones i8080_execute can take, and so every
    program counter of a run is an analysed instruction start. */
module Soundness {
  import opened Words
  import opened Numbers
  import opened Memory
  import opened I8080
  import opened Analyzer

  /** The instruction at a is, byte for byte, the one the analyser decoded, however it is read. */
  ghost predicate Intact(m: Machine, img: Image, a: Word)
  {
    forall stackrq: bool ::
      && Read(m.ram, a, stackrq) == img[a]
      && (Length(img[a]) >= 2 ==> Read(m.ram, a + 1, stackrq) == img[ToWord(a + 1)])
      && (Length(img[a]) >= 3 ==> Read(m.ram, a + 2, stackrq) == img[ToWord(a + 2)])
  }

  /** Control leaves to an address the instruction bytes do not give: RET, a taken Rcc, PCHL. */
  predicate DynamicExit(m: Machine, op: Byte)
  {
    op == 0xC9 || op == 0xE9 || (ClassifyControlFlow(op).ConditionalRet? && Taken(m.cpu.flags, op))
  }

  /** Opcodes the core executes as JMP, RET and CALL and the analyser takes for one-byte fillers. */
  const UNDOCUMENTED_JUMPS: set<Byte> := {0xCB, 0xD9, 0xDD, 0xED, 0xFD}

  predicate InFlow(img: Image, a: Word, next: Word)
  {
    next in Successors(img, a) || (img[a] == 0x76 && next == a)
  }

  lemma EiTailKeepsPc(m: Machine)
    ensures EiTail(m).cpu.pc == m.cpu.pc && EiTail(m).ram == m.ram
  {
  }

  // ---- opcodes that fall through, quarter by quarter ----

  lemma LoadStorePc(m: Machine, y: int)
    requires 0 <= y < 8
    ensures LoadStore(m, y).cpu.pc == if y < 4 then m.cpu.pc else ToWord(m.cpu.pc + 2)
  {
    hide Memory.Read, Memory.Write, Memory.ReadWord, Memory.WriteWord;
  }

  lemma AluOpPc(m: Machine, y: int, v: Byte)
    requires 0 <= y < 8
    ensures AluOp(m, y, v).cpu.pc == m.cpu.pc
  {
    hide Alu.Add, Alu.Sub, Alu.And, Alu.Or, Alu.Xor;
  }

  lemma InrDcrPc(m: Machine, r: int)
    requires 0 <= r < 8
    ensures Inr(m, r).cpu.pc == m.cpu.pc && Dcr(m, r).cpu.pc == m.cpu.pc
  {
    hide Memory.Read, Memory.Write, Alu.Parity;
  }

  lemma AccOpPc(m: Machine, y: int)
    requires 0 <= y < 8
    ensures AccOp(m, y).cpu.pc == m.cpu.pc
  {
    hide Alu.Daa;
  }

  lemma Quarter0FallsThrough(m: Machine, y: int, z: int, op: Byte)
    requires 0 <= y < 8 && 0 <= z < 8 && op == 8 * y + z
    ensures Quarter0(m, y, z).cpu.pc == ToWord(m.cpu.pc + Length(op) - 1)
  {
    hide Memory.Read, Memory.Write, Memory.ReadWord, LoadStore, Inr, Dcr, AccOp, SetReg, SetPair, GetPair, Imm8, Imm16,
      Dad, Length;
    LowLength(y, z);
    SetPc(m, y, Imm8(m));
    SetPairPc(m, y / 2, Imm16(m));
    SetPairPc(m, y / 2, ToWord(GetPair(m, y / 2) + (if y % 2 == 0 then 1 else -1)));
    DadPc(m, GetPair(m, y / 2));
    LoadStorePc(m, y);
    InrDcrPc(m, y);
    AccOpPc(m, y);
  }

  lemma LowLength(y: int, z: int)
    requires 0 <= y < 8 && 0 <= z < 8
    ensures Length(8 * y + z) ==
            if z == 1 then (if y % 2 == 0 then 3 else 1) else if z == 2 then (if y >= 4 then 3 else 1)
              else if z == 6 then 2 else 1
  {
    DivUnique(8 * y + z, 64, 0, 8 * y + z);
    DivUnique(8 * y + z, 8, y, z);
    DivUnique(y, 8, 0, y);
  }

  lemma SetPc(m: Machine, y: int, v: Byte)
    requires 0 <= y < 8
    ensures SetReg(m, y, v).cpu.pc == m.cpu.pc
  {
    hide Memory.Write;
  }

  lemma SetPairPc(m: Machine, p: int, w: Word)
    requires 0 <= p < 4
    ensures SetPair(m, p, w).cpu.pc == m.cpu.pc
  {
  }

  lemma DadPc(m: Machine, w: Word)
    ensures Dad(m, w).cpu.pc == m.cpu.pc
  {
  }

  lemma MiscPc(m: Machine, y: int, inp: Byte)
    requires 0 <= y < 8
    ensures Misc(m, y, inp).cpu.pc ==
            if y < 2 then Imm16(m) else if y < 4 then ToWord(m.cpu.pc + 1) else m.cpu.pc
  {
    hide Memory.Read, Memory.Write, Memory.ReadWord, Memory.WriteWord;
  }

  lemma PushPopPc(m: Machine, p: int)
    requires 0 <= p < 4
    ensures PopPair(m, p).cpu.pc == m.cpu.pc && PushPair(m, p).cpu.pc == m.cpu.pc
  {
    hide Memory.ReadWord, Memory.WriteWord, PackFlags, UnpackFlags;
  }

  /** Where an opcode of the last quarter can leave the program counter. */
  ghost predicate Quarter3To(m: Machine, z: int, op: Byte, after: Machine)
  {
    var pc := after.cpu.pc;
    || (op != 0xC3 && z != 7 && pc == ToWord(m.cpu.pc + Length(op) - 1))
    || ((z == 2 || op == 0xC3) && pc == Imm16(m))
    || ((z == 4 || op == 0xCD) && pc == ReadWord(after.ram, m.cpu.pc, true))
    || (z == 7 && pc == op / 8 % 8 * 8)
  }

  lemma ConditionalPc(m: Machine, y: int, z: int, op: Byte, inp: Byte)
    requires 0 <= y < 8 && (z == 0 || z == 2 || z == 4) && op == 192 + 8 * y + z && !DynamicExit(m, op)
    ensures Quarter3To(m, z, op, Quarter3(m, y, z, inp))
  {
    hide Memory.Read, Memory.ReadWord, Memory.WriteWord, Imm16, Condition;
    assert op / 64 == 3 && op / 8 % 8 == y && op % 8 == z;
  }

  lemma StackPc(m: Machine, y: int, z: int, op: Byte, inp: Byte)
    requires 0 <= y < 8 && (z == 1 || z == 5) && op == 192 + 8 * y + z
    requires op !in UNDOCUMENTED_JUMPS && !DynamicExit(m, op)
    ensures Quarter3To(m, z, op, Quarter3(m, y, z, inp))
  {
    hide Memory.Read, Memory.ReadWord, Memory.WriteWord, PushPair, PopPair, Imm16, Condition;
    assert op / 64 == 3 && op / 8 % 8 == y && op % 8 == z;
    if y % 2 == 0 {
      PushPopPc(m, y / 2);
    }
  }

  lemma OtherPc(m: Machine, y: int, z: int, op: Byte, inp: Byte)
    requires 0 <= y < 8 && (z == 3 || z == 6 || z == 7) && op == 192 + 8 * y + z && op !in UNDOCUMENTED_JUMPS
    ensures Quarter3To(m, z, op, Quarter3(m, y, z, inp))
  {
    hide Memory.Read, Memory.ReadWord, Memory.WriteWord, AluOp, Misc, Imm8, Imm16, Condition;
    assert op / 64 == 3 && op / 8 % 8 == y && op % 8 == z;
    MiscPc(m, y, inp);
    AluOpPc(m, y, Imm8(m));
  }

  lemma Quarter3Pc(m: Machine, y: int, z: int, op: Byte, inp: Byte)
    requires 0 <= y < 8 && 0 <= z < 8 && op == 192 + 8 * y + z
    requires op !in UNDOCUMENTED_JUMPS && !DynamicExit(m, op)
    ensures Quarter3To(m, z, op, Quarter3(m, y, z, inp))
  {
    hide Quarter3To, Quarter3, DynamicExit;
    if z == 0 || z == 2 || z == 4 {
      ConditionalPc(m, y, z, op, inp);
    } else if z == 1 || z == 5 {
      StackPc(m, y, z, op, inp);
    } else {
      OtherPc(m, y, z, op, inp);
    }
  }

  /** The four places a documented opcode without a dynamic exit can leave the program counter;
      `m` has already fetched the opcode. */
  ghost predicate PcCases(m: Machine, op: Byte, after: Machine)
  {
    var x, z, pc := op / 64, op % 8, after.cpu.pc;
    || (op != 0xC3 && op != 0x76 && !(x == 3 && z == 7) && pc == ToWord(m.cpu.pc + Length(op) - 1))
    || (((x == 3 && z == 2) || op == 0xC3) && pc == Imm16(m))
    || (((x == 3 && z == 4) || op == 0xCD) && pc == ReadWord(after.ram, m.cpu.pc, true))
    || (x == 3 && z == 7 && pc == op / 8 % 8 * 8)
    || (op == 0x76 && pc == ToWord(m.cpu.pc - 1))
  }

  lemma OneByte(op: Byte)
    requires op / 64 == 1 || op / 64 == 2
    ensures Length(op) == 1
  {
  }

  lemma SwitchPc(m: Machine, op: Byte, inp: Byte)
    requires op !in UNDOCUMENTED_JUMPS && !DynamicExit(m, op)
    ensures PcCases(m, op, Switch(m, op, inp))
  {
    hide Memory.Read, Memory.ReadWord, Memory.Write, Memory.WriteWord, Quarter0, Quarter3, AluOp, Length, DynamicExit,
      GetReg;
    var x, y, z := op / 64, op / 8 % 8, op % 8;
    if x == 1 || x == 2 {
      OneByte(op);
    }
    assert op == 64 * x + 8 * y + z;
    if x == 0 {
      Quarter0FallsThrough(m, y, z, op);
    } else if x == 2 {
      AluOpPc(m, y, GetReg(m, z));
    } else if x == 3 {
      Quarter3Pc(m, y, z, op, inp);
    }
  }

  /** The same places, as the analyser sees them. */
  lemma FlowFrom(img: Image, a: Word, next: Word)
    requires var op := img[a];
             var x, z := op / 64, op % 8;
             var operand := Pair(img[ToWord(a + 2)], img[ToWord(a + 1)]);
             && op !in UNDOCUMENTED_JUMPS && op != 0xC9 && op != 0xE9
             && (|| (op != 0xC3 && op != 0x76 && !(x == 3 && z == 7) && next == ToWord(a + Length(op)))
                 || (((x == 3 && z == 2) || op == 0xC3) && next == operand)
                 || (((x == 3 && z == 4) || op == 0xCD) && next == operand)
                 || (x == 3 && z == 7 && next == op / 8 % 8 * 8)
                 || (op == 0x76 && next == a))
    ensures InFlow(img, a, next)
  {
  }

  lemma OperandLength(op: Byte)
    ensures (op / 64 == 3 && (op % 8 == 2 || op % 8 == 4)) || op == 0xC3 || op == 0xCD ==> Length(op) == 3
  {
  }

  /** One processor step from an intact, decoded instruction lands on a queued successor. */
  lemma StepStaysInFlow(m: Machine, inp: Byte, img: Image)
    requires Intact(m, img, m.cpu.pc) && Intact(Step(m, inp), img, m.cpu.pc)
    requires img[m.cpu.pc] !in UNDOCUMENTED_JUMPS && !DynamicExit(m, img[m.cpu.pc])
    ensures InFlow(img, m.cpu.pc, Step(m, inp).cpu.pc)
  {
    hide Memory.Read, Memory.ReadWord, Switch, EiTail, InFlow, Length, Successors;
    var a, op := m.cpu.pc, img[m.cpu.pc];
    var f := Skip(m, 1);
    assert Read(m.ram, a, false) == op;
    SwitchPc(f, op, inp);
    EiTailKeepsPc(Switch(f, op, inp));
    assert ToWord(f.cpu.pc + Length(op) - 1) == ToWord(a + Length(op)) && ToWord(f.cpu.pc - 1) == a;
    OperandLength(op);
    if Length(op) == 3 {
      OperandRead(m, img, a, false);
      OperandRead(Step(m, inp), img, a, true);
    }
    FlowFrom(img, a, Step(m, inp).cpu.pc);
  }

  /** The little-endian operand word, read past the opcode, is the disassembler's. */
  lemma OperandRead(m: Machine, img: Image, a: Word, stackrq: bool)
    requires Intact(m, img, a) && Length(img[a]) == 3
    ensures ReadWord(m.ram, ToWord(a + 1), stackrq) == Pair(img[ToWord(a + 2)], img[ToWord(a + 1)])
  {
    hide BigramSelect, ToBank;
    assert Read(m.ram, a, stackrq) == img[a];
    assert ToWord(ToWord(a + 1) + 1) == ToWord(a + 2);
  }

  // ---- whole runs ----

  /** Consecutive processor steps, no interrupt taken; `inp[k]` answers an IN at step k. */
  ghost predicate IsRun(run: seq<Machine>, inp: seq<Byte>)
  {
    && |run| == |inp| + 1
    && forall k | 0 <= k < |inp| :: run[k + 1] == Step(run[k], inp[k])
  }

  /** Up to step k no analysed byte is changed and only statically known transfers are taken. */
  ghost predicate StaticRun(run: seq<Machine>, img: Image, instrs: seq<Instr>)
  {
    && (forall k, i | 0 <= k < |run| && i in instrs :: Intact(run[k], img, i.address))
    && (forall k | 0 <= k < |run| - 1 && IsStart(run[k].cpu.pc, instrs) ::
          img[run[k].cpu.pc] !in UNDOCUMENTED_JUMPS && !DynamicExit(run[k], img[run[k].cpu.pc]))
  }

  /** Soundness: from an entry point the processor executes analysed instructions only,
      until it first reaches an address listed as a conflict. */
  lemma {:induction false} AnalysisCoversRun(run: seq<Machine>, inp: seq<Byte>, img: Image, entries: seq<Word>,
                                             r: Analysis, k: nat)
    requires Decoded(img, r.instructions) && Closed(img, entries, r.instructions, r.conflicts, [])
    requires IsRun(run, inp) && StaticRun(run, img, r.instructions)
    requires run[0].cpu.pc in entries
    requires k < |run| && forall j | 0 <= j <= k :: run[j].cpu.pc !in r.conflicts
    ensures IsStart(run[k].cpu.pc, r.instructions)
  {
    if k == 0 {
      assert Known(run[0].cpu.pc, r.instructions, r.conflicts, []);
    } else {
      AnalysisCoversRun(run, inp, img, entries, r, k - 1);
      var m := run[k - 1];
      var i :| i in r.instructions && i.address == m.cpu.pc;
      assert run[(k - 1) + 1] == Step(m, inp[k - 1]);
      StepStaysInFlow(m, inp[k - 1], img);
      if run[k].cpu.pc in Successors(img, i.address) {
        assert Known(run[k].cpu.pc, r.instructions, r.conflicts, []);
      }
    }
  }

  // ---- the five undocumented opcodes are exactly where this breaks ----

  /** Opcode op is followed correctly wherever it is met. */
  ghost predicate FollowedEverywhere(op: Byte)
  {
    forall m: Machine, inp: Byte, img: Image |
      img[m.cpu.pc] == op && Intact(m, img, m.cpu.pc) && Intact(Step(m, inp), img, m.cpu.pc) && !DynamicExit(m, op)
      :: InFlow(img, m.cpu.pc, Step(m, inp).cpu.pc)
  }

  /** 0100: op, zeros everywhere else, stack at 8000. */
  function WitnessImage(op: Byte): Image { seq(65536, i => if i == 0x100 then op else 0) }

  function WitnessRam(op: Byte): Ram
  {
    Ram(seq(TOTAL_MEMORY, i => if i == ToBank(0x100) then op else 0), false, false, 0, 0, [])
  }

  function Witness(op: Byte): Machine
  {
    Machine(Cpu(0, 0, 0, 0, 0, 0, 0, 0, Alu.Flags(0, 0, 0, 0, 0), 0x8000, 0x100, false, 0),
            WitnessRam(op), false, false, -1, 0)
  }

  lemma WitnessReads(op: Byte, a: Word, stackrq: bool)
    ensures Read(WitnessRam(op), a, stackrq) == if a == 0x100 then op else 0
  {
    hide ToBank, FromBank;
    ToBankInverse(a);
    ToBankInverse(0x100);
  }

  /** A CALL whose stack is clear of its own bytes reads its operand and leaves its opcode. */
  lemma CallReadsOperand(m: Machine)
    requires m.cpu.pc == 0x101 && m.cpu.sp == 0x8000 && m.ram.boot == [] && !m.ram.modeMap && !m.ram.modeStack
    ensures Call(m).cpu.pc == ReadWord(m.ram, 0x101, true)
    ensures forall s :: Read(Call(m).ram, 0x100, s) == Read(m.ram, 0x100, s)
  {
    hide ToBank, Memory.Read, Memory.Write, Memory.WriteWord;
    var w := ToWord(m.cpu.pc + 2);
    forall s: bool ensures Read(WriteWord(m.ram, 0x7FFE, w, true), 0x100, s) == Read(m.ram, 0x100, s) {
      PushClear(m.ram, w, 0x100, s);
    }
    PushClear(m.ram, w, 0x101, true);
    PushClear(m.ram, w, 0x102, true);
  }

  lemma PushClear(ram: Ram, w: Word, a: Word, s: bool)
    requires ram.boot == [] && !ram.modeMap && !ram.modeStack && a < 0x7FFE
    ensures Read(WriteWord(ram, 0x7FFE, w, true), a, s) == Read(ram, a, s)
  {
    hide ToBank, Memory.Read;
    ReadAfterWrite(ram, 0x7FFE, Lo(w), true, a, s);
    ReadAfterWrite(Write(ram, 0x7FFE, Lo(w), true), 0x7FFF, Hi(w), true, a, s);
  }

  lemma UndocumentedMeaning(m: Machine, op: Byte, inp: Byte)
    requires op in UNDOCUMENTED_JUMPS
    ensures Switch(m, op, inp) == if op == 0xCB then Jump(m, Imm16(m)) else if op == 0xD9 then Ret(m) else Call(m)
  {
    hide Jump, Ret, Call, Imm16;
    if op == 0xCB || op == 0xD9 { assert op / 8 % 8 == (if op == 0xCB then 1 else 3) && op / 64 == 3; }
    else { assert op / 64 == 3 && op % 8 == 5 && op / 8 % 8 % 2 == 1; }
  }

  /** From the witness all five jump to address 0. */
  lemma WitnessStep(op: Byte)
    requires op in UNDOCUMENTED_JUMPS
    ensures var n := Step(Witness(op), 0);
            n.cpu.pc == 0 && forall s :: Read(n.ram, 0x100, s) == op
  {
    hide ToBank, Memory.Read, Memory.ReadWord, Call, EiTail, WitnessRam, Switch;
    var f := Skip(Witness(op), 1);
    WitnessReads(op, 0x100, true);
    WitnessReads(op, 0x100, false);
    WitnessWords(op);
    WitnessFlat(op);
    UndocumentedMeaning(f, op, 0);
    CallReadsOperand(f);
    var n := Switch(f, op, 0);
    EiTailKeepsPc(n);
    assert f.ram == WitnessRam(op) && f.cpu.pc == 0x101 && f.cpu.sp == 0x8000;
    if op == 0xCB || op == 0xD9 {
      assert n.ram == f.ram && n.cpu.pc == 0;
    } else {
      assert n == Call(f);
    }
    assert NextOp(Witness(op)) == op;
  }

  lemma WitnessWords(op: Byte)
    ensures var r := WitnessRam(op);
            ReadWord(r, 0x101, false) == ReadWord(r, 0x101, true) == ReadWord(r, 0x8000, true) == 0
  {
    hide Memory.Read, WitnessRam;
    WitnessReads(op, 0x101, true);
    WitnessReads(op, 0x102, true);
    WitnessReads(op, 0x101, false);
    WitnessReads(op, 0x102, false);
    WitnessReads(op, 0x8000, true);
    WitnessReads(op, 0x8001, true);
  }

  lemma WitnessFlat(op: Byte)
    ensures var r := WitnessRam(op); r.boot == [] && !r.modeMap && !r.modeStack
  {
  }

  lemma UndocumentedJumpEscapes(op: Byte)
    requires op in UNDOCUMENTED_JUMPS
    ensures !FollowedEverywhere(op)
  {
    hide Memory.Read, Step, WitnessRam, Successors;
    var m, img := Witness(op), WitnessImage(op);
    WitnessStep(op);
    WitnessReads(op, 0x100, true);
    WitnessReads(op, 0x100, false);
    FillerFlow(op);
    assert Intact(m, img, 0x100) && Intact(Step(m, 0), img, 0x100);
    assert !InFlow(img, 0x100, 0);
  }

  /** The analyser sees a one-byte instruction that falls through. */
  lemma FillerFlow(op: Byte)
    requires op in UNDOCUMENTED_JUMPS
    ensures Length(op) == 1 && Successors(WitnessImage(op), 0x100) == [0x101]
  {
    assert op / 64 == 3;
    assert WitnessImage(op)[0x100] == op;
  }

  lemma FollowedExactly(op: Byte)
    ensures FollowedEverywhere(op) <==> op !in UNDOCUMENTED_JUMPS
  {
    hide Intact, Step, InFlow;
    if op in UNDOCUMENTED_JUMPS {
      UndocumentedJumpEscapes(op);
    } else {
      forall m: Machine, inp: Byte, img: Image |
        img[m.cpu.pc] == op && Intact(m, img, m.cpu.pc) && Intact(Step(m, inp), img, m.cpu.pc) && !DynamicExit(m, op)
        ensures InFlow(img, m.cpu.pc, Step(m, inp).cpu.pc)
      {
        StepStaysInFlow(m, inp, img);
      }
    }
  }
}
