/** Control-flow analysis of 8080 code (debugger/agent/code_analyzer.h) over the
    debugger's disassembler (debugger/src/disassembler.cpp, opcode_info.h). */
module Analyzer {
  import opened Words
  import opened Sorting

  /** What readByte sees: all 64K of CPU address space. */
  type Image = s: seq<Byte> | |s| == 65536 witness seq(65536, _ => 0)

  // ---- disassembler ----

  /** opcode_info::get_length. */
  function Length(op: Byte): (n: int)
    ensures 1 <= n <= 3
  {
    var x, y, z := op / 64, op / 8 % 8, op % 8;
    match x
    case 0 =>
      (match z
       case 1 => if y % 2 == 0 then 3 else 1
       case 2 => if y >= 4 then 3 else 1
       case 6 => 2
       case _ => 1)
    case 3 =>
      (match z
       case 2 => 3
       case 3 => if y == 0 then 3 else if y == 2 || y == 3 then 2 else 1
       case 4 => 3
       case 5 => if y == 1 then 3 else 1
       case 6 => 2
       case _ => 1)
    case _ => 1
  }

  datatype Instr = Instr(address: Word, opcode: Byte, size: int, hasTarget: bool, target: Word)

  /** Formats F_JMP and F_CALL of the opcode table: documented jumps and calls only. */
  predicate HasAddressOperand(op: Byte)
  {
    op == 0xC3 || op == 0xCD || (op / 64 == 3 && (op % 8 == 2 || op % 8 == 4))
  }

  predicate IsRst(op: Byte) { op / 64 == 3 && op % 8 == 7 }

  function Disassemble(img: Image, a: Word): Instr
  {
    var op := img[a];
    var b1 := if Length(op) >= 2 then img[ToWord(a + 1)] else 0;
    var b2 := if Length(op) >= 3 then img[ToWord(a + 2)] else 0;
    if HasAddressOperand(op) then Instr(a, op, Length(op), true, Pair(b2, b1))
    else if IsRst(op) then Instr(a, op, Length(op), true, op / 8 % 8 * 8)
    else Instr(a, op, Length(op), false, 0)
  }

  // ---- classification ----

  datatype ControlFlow = Sequential | UnconditionalJmp | ConditionalJmp | UnconditionalCall
                       | ConditionalCall | UnconditionalRet | ConditionalRet | Restart | Halt | IndirectJump

  function ClassifyControlFlow(op: Byte): ControlFlow
  {
    if op == 0xC3 then UnconditionalJmp
    else if op == 0xCD then UnconditionalCall
    else if op == 0xC9 then UnconditionalRet
    else if op == 0xE9 then IndirectJump
    else if op == 0x76 then Halt
    else if op / 64 != 3 then Sequential
    else match op % 8
         case 0 => ConditionalRet
         case 2 => ConditionalJmp
         case 4 => ConditionalCall
         case 7 => Restart
         case _ => Sequential
  }

  /** Addresses the analyser queues after decoding the instruction at a. */
  function Successors(img: Image, a: Word): seq<Word>
  {
    var i := Disassemble(img, a);
    var next := ToWord(a + i.size);
    match ClassifyControlFlow(i.opcode)
    case UnconditionalJmp => [i.target]
    case ConditionalJmp => [i.target, next]
    case UnconditionalCall => [i.target, next]
    case ConditionalCall => [i.target, next]
    case Restart => [i.target, next]
    case ConditionalRet => [next]
    case Sequential => [next]
    case _ => []
  }

  // ---- worklist ----

  /** The analyser's test that b falls inside the instruction at i.address, past its first byte. */
  predicate Inside(b: Word, i: Instr)
  {
    i.address < b <= ToWord(i.address + (i.size - 1))
  }

  ghost predicate InsideSome(b: Word, instrs: seq<Instr>)
  {
    exists i <- instrs :: Inside(b, i)
  }

  ghost predicate IsStart(a: Word, instrs: seq<Instr>)
  {
    exists i <- instrs :: i.address == a
  }

  /** Every listed instruction is the decoding of its address, and no address is listed twice. */
  ghost predicate Decoded(img: Image, instrs: seq<Instr>)
  {
    && (forall i <- instrs :: i == Disassemble(img, i.address))
    && (forall i, j | 0 <= i < j < |instrs| :: instrs[i].address != instrs[j].address)
  }

  /** No instruction starts strictly inside one decoded earlier. */
  ghost predicate NoneInsideEarlier(instrs: seq<Instr>)
  {
    forall i, j | 0 <= i < j < |instrs| :: !Inside(instrs[j].address, instrs[i])
  }

  /** Conflict addresses fall inside decoded instructions and are not instruction starts. */
  ghost predicate ConflictsGenuine(instrs: seq<Instr>, conflicts: seq<Word>)
  {
    forall c <- conflicts :: !IsStart(c, instrs) && InsideSome(c, instrs)
  }

  /** Decoded, reported as a conflict, or still queued. */
  ghost predicate Known(a: Word, instrs: seq<Instr>, conflicts: seq<Word>, queue: seq<Word>)
  {
    IsStart(a, instrs) || a in conflicts || a in queue
  }

  /** Every entry point and every successor of a decoded instruction is known. */
  ghost predicate Closed(img: Image, entries: seq<Word>, instrs: seq<Instr>,
                         conflicts: seq<Word>, queue: seq<Word>)
  {
    && (forall e <- entries :: Known(e, instrs, conflicts, queue))
    && (forall i <- instrs, s <- Successors(img, i.address) :: Known(s, instrs, conflicts, queue))
  }

  /** An entry point, or a successor of one of these instructions. */
  ghost predicate Reached(img: Image, entries: seq<Word>, instrs: seq<Instr>, a: Word)
  {
    a in entries || exists i <- instrs :: a in Successors(img, i.address)
  }

  /** Nothing is decoded but what entry points and instructions decoded earlier lead to. */
  ghost predicate Grounded(img: Image, entries: seq<Word>, instrs: seq<Instr>)
  {
    forall k | 0 <= k < |instrs| :: Reached(img, entries, instrs[..k], instrs[k].address)
  }

  ghost predicate AllReached(img: Image, entries: seq<Word>, instrs: seq<Instr>, addresses: seq<Word>)
  {
    forall a <- addresses :: Reached(img, entries, instrs, a)
  }

  /** In some order, each instruction is led to by earlier ones and starts inside none of them. */
  ghost predicate Discovered(img: Image, entries: seq<Word>, instrs: seq<Instr>)
  {
    exists found: seq<Instr> ::
      multiset(found) == multiset(instrs) && NoneInsideEarlier(found) && Grounded(img, entries, found)
  }

  ghost predicate VisitedIs(visited: set<Word>, instrs: seq<Instr>)
  {
    forall a :: a in visited <==> IsStart(a, instrs)
  }

  // ---- the three things an iteration can do keep the worklist closed ----

  lemma ForgetKnown(img: Image, entries: seq<Word>, instrs: seq<Instr>, conflicts: seq<Word>, queue: seq<Word>)
    requires queue != [] && IsStart(queue[0], instrs)
    requires Closed(img, entries, instrs, conflicts, queue)
    ensures Closed(img, entries, instrs, conflicts, queue[1..])
  {
    assert forall a :: Known(a, instrs, conflicts, queue) ==> Known(a, instrs, conflicts, queue[1..]);
  }

  lemma RecordConflict(img: Image, entries: seq<Word>, instrs: seq<Instr>, conflicts: seq<Word>, queue: seq<Word>)
    requires queue != []
    requires Closed(img, entries, instrs, conflicts, queue)
    ensures Closed(img, entries, instrs, conflicts + [queue[0]], queue[1..])
  {
    assert forall a :: Known(a, instrs, conflicts, queue) ==> Known(a, instrs, conflicts + [queue[0]], queue[1..]);
  }

  lemma StartsGrow(instrs: seq<Instr>, d: Instr)
    ensures forall a :: IsStart(a, instrs + [d]) <==> IsStart(a, instrs) || a == d.address
    ensures forall c :: InsideSome(c, instrs) ==> InsideSome(c, instrs + [d])
  {
    forall a ensures IsStart(a, instrs + [d]) <==> IsStart(a, instrs) || a == d.address {
      assert d in instrs + [d];
      if i :| i in instrs && i.address == a { assert i in instrs + [d]; }
    }
    forall c | InsideSome(c, instrs) ensures InsideSome(c, instrs + [d]) {
      var i :| i in instrs && Inside(c, i);
      assert i in instrs + [d];
    }
  }

  lemma Visit(img: Image, entries: seq<Word>, instrs: seq<Instr>, conflicts: seq<Word>,
              queue: seq<Word>, queue': seq<Word>)
    requires queue != []
    requires Closed(img, entries, instrs, conflicts, queue)
    requires forall x <- queue[1..] :: x in queue'
    requires forall s <- Successors(img, queue[0]) :: s in queue' || s == queue[0] || IsStart(s, instrs)
    ensures Closed(img, entries, instrs + [Disassemble(img, queue[0])], conflicts, queue')
  {
    var d := Disassemble(img, queue[0]);
    StartsGrow(instrs, d);
    assert forall a :: Known(a, instrs, conflicts, queue) ==> Known(a, instrs + [d], conflicts, queue');
    forall i <- instrs + [d], s <- Successors(img, i.address) ensures Known(s, instrs + [d], conflicts, queue') {
      if i in instrs {
        assert Known(s, instrs, conflicts, queue);
      }
    }
  }

  lemma VisitKeeps(img: Image, instrs: seq<Instr>, conflicts: seq<Word>, a: Word)
    requires Decoded(img, instrs) && NoneInsideEarlier(instrs) && ConflictsGenuine(instrs, conflicts)
    requires !IsStart(a, instrs) && !InsideSome(a, instrs)
    ensures var instrs' := instrs + [Disassemble(img, a)];
            Decoded(img, instrs') && NoneInsideEarlier(instrs') && ConflictsGenuine(instrs', conflicts)
  {
    StartsGrow(instrs, Disassemble(img, a));
    forall i | 0 <= i < |instrs| ensures instrs[i].address != a && !Inside(a, instrs[i]) {
      assert instrs[i] in instrs;
    }
  }

  /** The scan over instrEndMap. */
  method FindConflict(b: Word, instrs: seq<Instr>) returns (conflict: bool)
    ensures conflict <==> InsideSome(b, instrs)
  {
    for k := 0 to |instrs|
      invariant forall i <- instrs[..k] :: !Inside(b, i)
    {
      if Inside(b, instrs[k]) {
        return true;
      }
    }
    assert instrs[..|instrs|] == instrs;
    conflict := false;
  }

  method Dedup(entries: seq<Word>) returns (r: seq<Word>)
    ensures forall e :: e in r <==> e in entries
    ensures forall i, j | 0 <= i < j < |r| :: r[i] != r[j]
  {
    r := [];
    var seen: set<Word> := {};
    for k := 0 to |entries|
      invariant forall e :: e in seen <==> e in r
      invariant forall e :: e in r <==> e in entries[..k]
      invariant forall i, j | 0 <= i < j < |r| :: r[i] != r[j]
    {
      assert entries[..k + 1] == entries[..k] + [entries[k]];
      if entries[k] !in seen {
        r := r + [entries[k]];
        seen := seen + {entries[k]};
      }
    }
    assert entries[..|entries|] == entries;
  }

  /** `if (!visited.count(s)) workQueue.push(s)` for each successor in turn. */
  method PushUnvisited(queue: seq<Word>, succs: seq<Word>, visited: set<Word>) returns (r: seq<Word>)
    ensures forall x <- queue :: x in r
    ensures forall s <- succs :: s in r || s in visited
    ensures forall x <- r :: x in queue || (x in succs && x !in visited)
  {
    r := queue;
    for k := 0 to |succs|
      invariant forall x <- queue :: x in r
      invariant forall s <- succs[..k] :: s in r || s in visited
      invariant forall x <- r :: x in queue || (x in succs && x !in visited)
    {
      assert succs[..k + 1] == succs[..k] + [succs[k]];
      if succs[k] !in visited {
        r := r + [succs[k]];
      }
    }
    assert succs[..|succs|] == succs;
  }

  // ---- references ----

  datatype Reference = Reference(from: Word, to: Word, kind: ControlFlow)

  predicate MakesReference(op: Byte)
  {
    ClassifyControlFlow(op) in {UnconditionalJmp, ConditionalJmp, UnconditionalCall, ConditionalCall, Restart}
  }

  function RefsOf(i: Instr): seq<Reference>
  {
    if MakesReference(i.opcode) then [Reference(i.address, i.target, ClassifyControlFlow(i.opcode))] else []
  }

  /** Exactly one reference for each decoded jump, call and restart. */
  ghost predicate RefsMatch(instrs: seq<Instr>, refs: seq<Reference>)
  {
    && (forall i <- instrs, r <- RefsOf(i) :: r in refs)
    && (forall r <- refs :: exists i <- instrs :: r in RefsOf(i))
    && (forall j, k | 0 <= j < k < |refs| :: refs[j].from != refs[k].from)
  }

  lemma RefsGrow(instrs: seq<Instr>, refs: seq<Reference>, d: Instr)
    requires RefsMatch(instrs, refs) && !IsStart(d.address, instrs)
    ensures RefsMatch(instrs + [d], refs + RefsOf(d))
  {
    forall r <- refs ensures r.from != d.address {
      var i :| i in instrs && r in RefsOf(i);
    }
    assert forall j | 0 <= j < |refs| :: refs[j] in refs;
    forall r <- refs + RefsOf(d) ensures exists i <- instrs + [d] :: r in RefsOf(i) {
      if r in refs {
        var i :| i in instrs && r in RefsOf(i);
        assert i in instrs + [d];
      } else {
        assert d in instrs + [d];
      }
    }
  }

  /** Decoding one more queued address keeps everything grounded. */
  lemma GroundedGrows(img: Image, entries: seq<Word>, instrs: seq<Instr>, d: Instr, queue: seq<Word>, queue': seq<Word>)
    requires Grounded(img, entries, instrs) && AllReached(img, entries, instrs, queue) && d.address in queue
    requires forall x <- queue' :: x in queue || x in Successors(img, d.address)
    ensures Grounded(img, entries, instrs + [d]) && AllReached(img, entries, instrs + [d], queue')
  {
    hide Successors;
    var more := instrs + [d];
    assert d in more && more[..|instrs|] == instrs;
    forall k | 0 <= k < |more| ensures Reached(img, entries, more[..k], more[k].address) {
      assert k < |instrs| ==> more[..k] == instrs[..k];
    }
    forall a <- queue' ensures Reached(img, entries, more, a) {
      if a in queue {
        ReachedStays(img, entries, instrs, d, a);
      }
    }
  }

  lemma NothingYet(img: Image, entries: seq<Word>)
    ensures Decoded(img, []) && NoneInsideEarlier([]) && ConflictsGenuine([], []) && RefsMatch([], [])
    ensures Grounded(img, entries, []) && AllReached(img, entries, [], entries) && AllReached(img, entries, [], [])
    ensures Closed(img, entries, [], [], entries)
  {
  }

  lemma FewerQueued(img: Image, entries: seq<Word>, instrs: seq<Instr>, queue: seq<Word>, conflicts: seq<Word>)
    requires queue != [] && AllReached(img, entries, instrs, queue) && AllReached(img, entries, instrs, conflicts)
    ensures AllReached(img, entries, instrs, queue[1..]) && AllReached(img, entries, instrs, conflicts + [queue[0]])
  {
    hide Reached;
  }

  lemma DecodesAt(img: Image, a: Word)
    ensures Disassemble(img, a).address == a
  {
  }

  lemma OneConflictMore(instrs: seq<Instr>, conflicts: seq<Word>, a: Word)
    requires ConflictsGenuine(instrs, conflicts) && !IsStart(a, instrs) && InsideSome(a, instrs)
    ensures ConflictsGenuine(instrs, conflicts + [a])
  {
    hide InsideSome, IsStart;
  }

  lemma ReachedStays(img: Image, entries: seq<Word>, instrs: seq<Instr>, d: Instr, a: Word)
    requires Reached(img, entries, instrs, a)
    ensures Reached(img, entries, instrs + [d], a)
  {
    hide Successors;
    if a !in entries {
      var i :| i in instrs && a in Successors(img, i.address);
      assert i in instrs + [d];
    }
  }

  lemma ConflictsStay(img: Image, entries: seq<Word>, instrs: seq<Instr>, d: Instr, conflicts: seq<Word>)
    requires AllReached(img, entries, instrs, conflicts)
    ensures AllReached(img, entries, instrs + [d], conflicts)
  {
    hide Reached;
    forall a <- conflicts ensures Reached(img, entries, instrs + [d], a) {
      ReachedStays(img, entries, instrs, d, a);
    }
  }

  /** The worklist loop of analyzeCodeMulti. */
  method Explore(img: Image, entries: seq<Word>, maxInstructions: nat)
    returns (instrs: seq<Instr>, refs: seq<Reference>, conflicts: seq<Word>, truncated: bool)
    ensures Decoded(img, instrs) && NoneInsideEarlier(instrs) && ConflictsGenuine(instrs, conflicts)
    ensures RefsMatch(instrs, refs) && Grounded(img, entries, instrs) && AllReached(img, entries, instrs, conflicts)
    ensures |instrs| <= maxInstructions
    ensures truncated ==> |instrs| == maxInstructions
    ensures !truncated ==> Closed(img, entries, instrs, conflicts, [])
  {
    hide Decoded, NoneInsideEarlier, ConflictsGenuine, RefsMatch, Grounded, AllReached, Closed, Successors, Disassemble,
      InsideSome;
    instrs, refs, conflicts := [], [], [];
    var visited: set<Word> := {};
    var queue := entries;
    NothingYet(img, entries);
    while queue != [] && |instrs| < maxInstructions
      invariant |instrs| <= maxInstructions
      invariant VisitedIs(visited, instrs) && |visited| <= 65536
      invariant Decoded(img, instrs) && NoneInsideEarlier(instrs) && ConflictsGenuine(instrs, conflicts)
      invariant RefsMatch(instrs, refs) && Grounded(img, entries, instrs)
      invariant AllReached(img, entries, instrs, queue) && AllReached(img, entries, instrs, conflicts)
      invariant Closed(img, entries, instrs, conflicts, queue)
      decreases 65536 - |visited|, |queue|
    {
      var addr := queue[0];
      FewerQueued(img, entries, instrs, queue, conflicts);
      if addr in visited {
        ForgetKnown(img, entries, instrs, conflicts, queue);
        queue := queue[1..];
        continue;
      }
      var conflict := FindConflict(addr, instrs);
      if conflict {
        RecordConflict(img, entries, instrs, conflicts, queue);
        OneConflictMore(instrs, conflicts, addr);
        conflicts := conflicts + [addr];
        queue := queue[1..];
        continue;
      }
      assert Disassemble(img, addr).address == addr by { DecodesAt(img, addr); }
      visited := visited + {addr};
      BoundedSetSize(visited, 65536);
      var queue' := PushUnvisited(queue[1..], Successors(img, addr), visited);
      Visit(img, entries, instrs, conflicts, queue, queue');
      VisitKeeps(img, instrs, conflicts, addr);
      StartsGrow(instrs, Disassemble(img, addr));
      RefsGrow(instrs, refs, Disassemble(img, addr));
      GroundedGrows(img, entries, instrs, Disassemble(img, addr), queue, queue');
      ConflictsStay(img, entries, instrs, Disassemble(img, addr), conflicts);
      refs := refs + RefsOf(Disassemble(img, addr));
      instrs := instrs + [Disassemble(img, addr)];
      queue := queue';
    }
    truncated := queue != [] && |instrs| >= maxInstructions;
  }

  // ---- code ranges ----

  datatype Range = Range(start: Word, end: Word)

  ghost predicate Covers(instrs: seq<Instr>, b: int)
  {
    exists i <- instrs :: i.address <= b < i.address + i.size
  }

  ghost predicate InRanges(ranges: seq<Range>, b: int)
  {
    exists r <- ranges :: r.start <= b <= r.end
  }

  /** Ascending, and at least one uncovered byte between neighbours. */
  ghost predicate Separated(ranges: seq<Range>)
  {
    && (forall k | 0 <= k < |ranges| :: ranges[k].start <= ranges[k].end)
    && (forall j, k | 0 <= j < k < |ranges| :: ranges[j].end + 1 < ranges[k].start)
  }

  ghost predicate NoWrap(instrs: seq<Instr>)
  {
    forall i <- instrs :: 1 <= i.size && i.address + i.size <= 65536
  }

  /** Bytes covered by the closed ranges plus the open one [start, end]. */
  ghost predicate RangesSoFar(instrs: seq<Instr>, ranges: seq<Range>, start: Word, end: Word)
  {
    && start <= end
    && Separated(ranges + [Range(start, end)])
    && (forall b :: Covers(instrs, b) <==> InRanges(ranges + [Range(start, end)], b))
  }

  lemma CoversAppend(instrs: seq<Instr>, i: Instr, b: int)
    ensures Covers(instrs + [i], b) <==> Covers(instrs, b) || i.address <= b < i.address + i.size
  {
    assert i in instrs + [i];
    if Covers(instrs, b) {
      var j :| j in instrs && j.address <= b < j.address + j.size;
      assert j in instrs + [i];
    }
  }

  lemma InRangesAppend(ranges: seq<Range>, r: Range, b: int)
    ensures InRanges(ranges + [r], b) <==> InRanges(ranges, b) || r.start <= b <= r.end
  {
    assert r in ranges + [r];
    if InRanges(ranges, b) {
      var q :| q in ranges && q.start <= b <= q.end;
      assert q in ranges + [r];
    }
  }

  /** The next instruction starts inside or right after the open range: extend it. */
  lemma ExtendRange(instrs: seq<Instr>, ranges: seq<Range>, start: Word, end: Word, i: Instr, end': Word)
    requires RangesSoFar(instrs, ranges, start, end)
    requires start <= i.address <= end + 1 && i.size >= 1
    requires end' == if i.address + i.size - 1 > end then i.address + i.size - 1 else end
    ensures RangesSoFar(instrs + [i], ranges, start, end')
  {
    assert forall k | 0 <= k < |ranges| :: ranges[k] == (ranges + [Range(start, end)])[k];
    forall j, k | 0 <= j < k < |ranges + [Range(start, end')]|
      ensures (ranges + [Range(start, end')])[j].end + 1 < (ranges + [Range(start, end')])[k].start
    {
      assert (ranges + [Range(start, end)])[j].end + 1 < (ranges + [Range(start, end)])[k].start;
    }
    forall b ensures Covers(instrs + [i], b) <==> InRanges(ranges + [Range(start, end')], b) {
      CoversAppend(instrs, i, b);
      InRangesAppend(ranges, Range(start, end), b);
      InRangesAppend(ranges, Range(start, end'), b);
    }
  }

  /** There is a hole before the next instruction: close the range and open another. */
  lemma OpenRange(instrs: seq<Instr>, ranges: seq<Range>, start: Word, end: Word, i: Instr)
    requires RangesSoFar(instrs, ranges, start, end)
    requires end + 1 < i.address && i.size >= 1 && i.address + i.size <= 65536
    ensures RangesSoFar(instrs + [i], ranges + [Range(start, end)], i.address, i.address + i.size - 1)
  {
    var r := Range(i.address, i.address + i.size - 1);
    var closed := ranges + [Range(start, end)];
    forall j, k | 0 <= j < k < |closed + [r]| ensures (closed + [r])[j].end + 1 < (closed + [r])[k].start {
      if k == |closed| && j < |ranges| {
        assert closed[j].end + 1 < closed[|ranges|].start;
      }
    }
    forall b ensures Covers(instrs + [i], b) <==> InRanges(closed + [r], b) {
      CoversAppend(instrs, i, b);
      InRangesAppend(closed, r, b);
    }
  }

  lemma FirstRange(instrs: seq<Instr>)
    requires instrs != [] && NoWrap(instrs)
    ensures var i := instrs[0];
            && 1 <= i.size && i.address + i.size <= 65536
            && RangesSoFar(instrs[..1], [], i.address, i.address + i.size - 1)
  {
    var i := instrs[0];
    assert i in instrs && instrs[..1] == [] + [i];
    var r := Range(i.address, i.address + i.size - 1);
    forall b ensures Covers(instrs[..1], b) <==> InRanges([] + [r], b) {
      CoversAppend([], i, b);
      InRangesAppend([], r, b);
    }
  }

  lemma LastRange(instrs: seq<Instr>, ranges: seq<Range>, start: Word, end: Word)
    requires RangesSoFar(instrs, ranges, start, end)
    ensures Separated(ranges + [Range(start, end)])
    ensures forall b :: Covers(instrs, b) <==> InRanges(ranges + [Range(start, end)], b)
  {
  }

  lemma NoWrapAt(instrs: seq<Instr>, k: int)
    requires NoWrap(instrs) && SortedBy(instrs, ByAddress) && 1 <= k < |instrs|
    ensures instrs[k - 1].address <= instrs[k].address
    ensures 1 <= instrs[k].size && instrs[k].address + instrs[k].size <= 65536
  {
    assert instrs[k] in instrs;
    assert ByAddress(instrs[k - 1]) <= ByAddress(instrs[k]);
  }

  function ByAddress(i: Instr): int { i.address }

  /** One iteration: extend the open range or close it and open another. */
  method Absorb(ghost done: seq<Instr>, ranges: seq<Range>, start: Word, end: Word, i: Instr)
    returns (ranges': seq<Range>, start': Word, end': Word)
    ensures RangesSoFar(done, ranges, start, end) && start <= i.address && 1 <= i.size
            && i.address + i.size <= 65536 ==>
              RangesSoFar(done + [i], ranges', start', end') && start' <= i.address
  {
    hide RangesSoFar;
    var curEnd: Word := ToWord(i.address + i.size - 1);
    var limit: int := end + 1;
    if i.address <= limit {
      ranges', start', end' := ranges, start, if curEnd > end then curEnd else end;
      if RangesSoFar(done, ranges, start, end) && start <= i.address && 1 <= i.size && i.address + i.size <= 65536 {
        ExtendRange(done, ranges, start, end, i, end');
      }
    } else {
      ranges', start', end' := ranges + [Range(start, end)], i.address, curEnd;
      if RangesSoFar(done, ranges, start, end) && 1 <= i.size && i.address + i.size <= 65536 {
        OpenRange(done, ranges, start, end, i);
      }
    }
  }

  /** Contiguous code ranges (inclusive end) of an address-sorted list, with the uint16_t stores. */
  method FormRanges(instrs: seq<Instr>) returns (ranges: seq<Range>)
    requires SortedBy(instrs, ByAddress)
    ensures NoWrap(instrs) ==> Separated(ranges) && forall b :: Covers(instrs, b) <==> InRanges(ranges, b)
  {
    ranges := [];
    if instrs == [] {
      return;
    }
    hide RangesSoFar, Covers, InRanges, Separated, NoWrap, SortedBy;
    var start: Word, end: Word := instrs[0].address, ToWord(instrs[0].address + instrs[0].size - 1);
    if NoWrap(instrs) {
      FirstRange(instrs);
    }
    for k := 1 to |instrs|
      invariant NoWrap(instrs) ==> RangesSoFar(instrs[..k], ranges, start, end) && start <= instrs[k - 1].address
    {
      if NoWrap(instrs) {
        NoWrapAt(instrs, k);
      }
      assert instrs[..k + 1] == instrs[..k] + [instrs[k]];
      ranges, start, end := Absorb(instrs[..k], ranges, start, end, instrs[k]);
    }
    assert instrs[..|instrs|] == instrs;
    if NoWrap(instrs) {
      LastRange(instrs, ranges, start, end);
    }
    ranges := ranges + [Range(start, end)];
  }

  // ---- the whole analysis ----

  datatype Analysis = Analysis(entryPoints: seq<Word>, instructions: seq<Instr>, references: seq<Reference>,
                               ranges: seq<Range>, conflicts: seq<Word>, codeBytes: nat, truncated: bool)

  function TotalSize(instrs: seq<Instr>): int
  {
    if instrs == [] then 0 else TotalSize(instrs[..|instrs| - 1]) + instrs[|instrs| - 1].size
  }

  method CodeBytes(instrs: seq<Instr>) returns (n: nat)
    requires forall i <- instrs :: 1 <= i.size <= 3
    ensures n == TotalSize(instrs) && |instrs| <= n <= 3 * |instrs|
  {
    n := 0;
    for k := 0 to |instrs|
      invariant n == TotalSize(instrs[..k]) && k <= n <= 3 * k
    {
      assert instrs[..k + 1][..k] == instrs[..k] && instrs[k] in instrs;
      n := n + instrs[k].size;
    }
    assert instrs[..|instrs|] == instrs;
  }

  method AnalyzeCodeMulti(img: Image, entryPoints: seq<Word>, maxInstructions: nat) returns (r: Analysis)
    ensures forall e :: e in r.entryPoints <==> e in entryPoints
    ensures Decoded(img, r.instructions) && SortedBy(r.instructions, ByAddress)
    ensures ConflictsGenuine(r.instructions, r.conflicts) && RefsMatch(r.instructions, r.references)
    ensures Discovered(img, entryPoints, r.instructions) && AllReached(img, entryPoints, r.instructions, r.conflicts)
    ensures r.truncated ==> |r.instructions| == maxInstructions
    ensures |r.instructions| <= maxInstructions && r.codeBytes == TotalSize(r.instructions)
    ensures !r.truncated ==> Closed(img, entryPoints, r.instructions, r.conflicts, [])
    ensures NoWrap(r.instructions) ==>
              && Separated(r.ranges)
              && forall b :: Covers(r.instructions, b) <==> InRanges(r.ranges, b)
  {
    hide *;
    var entries := Dedup(entryPoints);
    var instrs, refs, conflicts, truncated := Explore(img, entries, maxInstructions);
    var sorted := SortBy(instrs, ByAddress);
    SortedKeeps(img, entryPoints, entries, instrs, sorted, refs, conflicts);
    var ranges := FormRanges(sorted);
    assert forall i <- sorted :: 1 <= i.size <= 3 by { SizesInRange(img, sorted); }
    var bytes := CodeBytes(sorted);
    DiscoveredSorted(img, entryPoints, entries, instrs, sorted, conflicts);
    r := Analysis(entries, sorted, refs, ranges, conflicts, bytes, truncated);
  }

  lemma DiscoveredSorted(img: Image, given: seq<Word>, entries: seq<Word>, instrs: seq<Instr>, sorted: seq<Instr>,
                         conflicts: seq<Word>)
    requires Grounded(img, entries, instrs) && NoneInsideEarlier(instrs) && multiset(instrs) == multiset(sorted)
    requires forall e :: e in entries <==> e in given
    requires AllReached(img, entries, instrs, conflicts)
    ensures Discovered(img, given, sorted) && AllReached(img, given, sorted, conflicts)
  {
    hide Successors;
    SameMembers(instrs, sorted);
    assert forall a :: Reached(img, entries, instrs, a) ==> Reached(img, given, sorted, a);
    assert Grounded(img, given, instrs);
  }

  lemma SizesInRange(img: Image, instrs: seq<Instr>)
    requires Decoded(img, instrs)
    ensures forall i <- instrs :: 1 <= i.size <= 3
  {
  }

  lemma DistinctAfterSort(img: Image, a: seq<Instr>, b: seq<Instr>)
    requires multiset(a) == multiset(b) && Decoded(img, a)
    ensures Decoded(img, b)
  {
    SameMembers(a, b);
    DistinctCounts(a);
    forall i, j | 0 <= i < j < |b| ensures b[i].address != b[j].address {
      CountsDistinct(b, i, j);
      assert b[i] in a && b[j] in a;
    }
  }

  lemma SortedKeeps(img: Image, given: seq<Word>, entries: seq<Word>, instrs: seq<Instr>, sorted: seq<Instr>,
                    refs: seq<Reference>, conflicts: seq<Word>)
    requires multiset(instrs) == multiset(sorted) && forall e :: e in given <==> e in entries
    requires Decoded(img, instrs) && ConflictsGenuine(instrs, conflicts) && RefsMatch(instrs, refs)
    ensures Decoded(img, sorted) && ConflictsGenuine(sorted, conflicts) && RefsMatch(sorted, refs)
    ensures Closed(img, entries, instrs, conflicts, []) ==> Closed(img, given, sorted, conflicts, [])
  {
    SameMembers(instrs, sorted);
    DistinctAfterSort(img, instrs, sorted);
    assert forall a :: IsStart(a, instrs) ==> IsStart(a, sorted);
    assert forall a :: IsStart(a, sorted) ==> IsStart(a, instrs);
    assert forall c :: InsideSome(c, instrs) ==> InsideSome(c, sorted);
    if Closed(img, entries, instrs, conflicts, []) {
      assert forall a :: Known(a, instrs, conflicts, []) ==> Known(a, sorted, conflicts, []);
    }
    forall r <- refs ensures exists i <- sorted :: r in RefsOf(i) {
      var i :| i in instrs && r in RefsOf(i);
      assert i in sorted;
    }
  }
}
