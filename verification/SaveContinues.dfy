/** How a restored board goes on (src/board.cpp): last_opcode is not part of a save state, so after a restore
    it is whatever the running board executed last. */
module SaveContinues {
  import opened Words
  import opened Memory
  import opened I8080
  import opened Interrupts

  /** The saved board with another last opcode. */
  function Restored(b: Board, last: Byte): Board { b.(lastOpcode := last) }

  /** Both opcodes are HLT, or neither is. */
  predicate SameHalt(b: Board, last: Byte) { (b.lastOpcode == HLT) == (last == HLT) }

  lemma Continues(b: Board, last: Byte, o: Outside)
    requires Accepts(b) ==> SameHalt(b, last)
    ensures Iterate(Restored(b, last), o) == Iterate(b, o)
  {
    hide Execute, Step, CpuCycles, NextOp, Latch, Devices;
    var e := Enter(b, o);
    assert Enter(Restored(b, last), o) == e.(lastOpcode := last);
    var c := CheckInterrupt(e);
    assert CheckInterrupt(e.(lastOpcode := last)) == c.(lastOpcode := last);
  }

  /** From then on the two boards are the same, whatever comes. */
  lemma {:induction false} ContinuesForever(run: seq<Board>, run': seq<Board>, outs: seq<Outside>, k: nat)
    requires IsRun(run, outs) && IsRun(run', outs) && 0 < k < |run|
    requires run'[0] == Restored(run[0], run'[0].lastOpcode)
             && (Accepts(run[0]) ==> SameHalt(run[0], run'[0].lastOpcode))
    ensures run'[k] == run[k]
  {
    hide Iterate, Restored;
    if k == 1 {
      Continues(run[0], run'[0].lastOpcode, outs[0]);
    } else {
      ContinuesForever(run, run', outs, k - 1);
    }
    assert run[(k - 1) + 1] == Iterate(run[k - 1], outs[k - 1])
           && run'[(k - 1) + 1] == Iterate(run'[k - 1], outs[k - 1]);
  }

  /** The low byte of the return address tells HLT apart. */
  lemma PushesDiffer(m: Machine)
    ensures Push(m, m.cpu.pc).ram.bytes != Push(m, ToWord(m.cpu.pc + 1)).ram.bytes
  {
    hide ToBank, BigramSelect;
    var sp: int := ToWord(m.cpu.sp - 2);
    var p, q := m.cpu.pc, ToWord(m.cpu.pc + 1);
    var at, next := BigramSelect(m.ram, sp, true), BigramSelect(m.ram, ToWord(sp + 1), true);
    assert ToWord(sp) == sp;
    assert at != next by {
      if at == next {
        SelectInjective(m.ram, sp, ToWord(sp + 1), true);
        assert false;
      }
    }
    WrittenLow(m.ram, sp, p);
    WrittenLow(m.ram, sp, q);
    assert Lo(p) != Lo(q) by { LowDiffers(p); }
  }

  lemma LowDiffers(w: Word)
    ensures Lo(w) != Lo(ToWord(w + 1))
  {
  }

  /** A stored word leaves its low byte in the cell it addresses. */
  lemma WrittenLow(ram: Ram, sp: Word, w: Word)
    ensures WriteWord(ram, sp, w, true).bytes[ToBank(BigramSelect(ram, sp, true))] == Lo(w)
  {
    hide ToBank;
    var r := Write(ram, sp, Lo(w), true);
    var at, next := BigramSelect(ram, sp, true), BigramSelect(ram, ToWord(sp + 1), true);
    assert ToWord(sp) == sp && BigramSelect(r, ToWord(sp + 1), true) == next;
    CellLaw(ram.bytes, at, at, Lo(w));
    CellLaw(r.bytes, next, at, Hi(w));
    if at == next {
      SelectInjective(ram, sp, ToWord(sp + 1), true);
      assert false;
    }
  }

  /** A restored board takes a pending interrupt like the saved one if and only if both were halted or
      neither was; otherwise it returns to the wrong address. */
  lemma AcceptsAlike(b: Board, last: Byte)
    ensures CheckInterrupt(Restored(b, last)).m == CheckInterrupt(b).m <==> (Accepts(b) ==> SameHalt(b, last))
  {
    if Accepts(b) && !SameHalt(b, last) {
      var m := SetInte(b.m, false);
      PushesDiffer(m);
      RstRam(m);
      RstRam(Skip(m, 1));
      hide Execute, Push;
    } else {
      hide Execute;
    }
  }

  lemma RstRam(m: Machine)
    ensures Execute(m, 0xFF, 0).ram.bytes == Push(m, m.cpu.pc).ram.bytes
    ensures Push(Skip(m, 1), ToWord(m.cpu.pc + 1)).ram == Push(m, ToWord(m.cpu.pc + 1)).ram
  {
    hide Memory.WriteWord;
  }
}
