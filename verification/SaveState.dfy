/** Save states: framed chunks (src/serialize.h) and what the parts of the machine put into
    them (src/memory.cpp, src/vio.h, src/i8080.cpp, src/board.cpp). */
module SaveState {
  import opened Words
  import opened Wrappers
  import M = Memory

  const U32 := 0x1_0000_0000

  type Word32 = x: int | 0 <= x < 0x1_0000_0000

  // ---- chunks ----

  function Le32(v: Word32): (r: seq<Byte>)
    ensures |r| == 4
  {
    [v % 256, v / 256 % 256, v / 0x1_0000 % 256, v / 0x100_0000]
  }

  function ReadLe32(s: seq<Byte>): Word32
    requires |s| == 4
  {
    var lo: int, hi: int := Pair(s[1], s[0]), Pair(s[3], s[2]);
    lo + 65536 * hi
  }

  lemma Le32Inverse(v: Word32)
    ensures ReadLe32(Le32(v)) == v
  {
    var x := v / 256;
    var y := x / 256;
    assert v / 0x1_0000 == y && v / 0x100_0000 == y / 256;
  }

  datatype Chunk = Chunk(id: Word32, data: seq<Byte>)

  /** insert_chunk. */
  function Frame(c: Chunk): seq<Byte>
    requires |c.data| < U32
  {
    Le32(c.id) + Le32(|c.data|) + c.data
  }

  ghost predicate AllFit(cs: seq<Chunk>) { forall c <- cs :: |c.data| < U32 }

  function FrameAll(cs: seq<Chunk>): seq<Byte>
    requires AllFit(cs)
  {
    if cs == [] then [] else Frame(cs[0]) + FrameAll(cs[1..])
  }

  /** Repeated take_chunk; None where the stream ends inside a chunk. */
  function Chunks(s: seq<Byte>): Option<seq<Chunk>>
    decreases |s|
  {
    if s == [] then Some([])
    else if |s| < 8 then None
    else
      var n := ReadLe32(s[4..8]);
      if |s| < 8 + n then None
      else match Chunks(s[8 + n..])
           case None => None
           case Some(cs) => Some([Chunk(ReadLe32(s[..4]), s[8..8 + n])] + cs)
  }

  lemma FirstChunk(c: Chunk, rest: seq<Byte>)
    requires |c.data| < U32
    ensures Chunks(Frame(c) + rest) == match Chunks(rest) case None => None case Some(cs) => Some([c] + cs)
  {
    hide Le32, ReadLe32;
    var s := Frame(c) + rest;
    var n := |c.data|;
    Le32Inverse(c.id);
    Le32Inverse(n);
    assert s == Le32(c.id) + (Le32(n) + (c.data + rest));
    assert s[..4] == Le32(c.id) && s[4..8] == Le32(n);
    assert s[8..8 + n] == c.data && s[8 + n..] == rest;
  }

  /** Parsing any concatenation of framed chunks recovers them. */
  lemma {:induction false} ChunksInverse(cs: seq<Chunk>)
    requires AllFit(cs)
    ensures Chunks(FrameAll(cs)) == Some(cs)
  {
    hide Chunks, Frame;
    if cs == [] {
      assert Chunks([]) == Some([]) by { NoChunks(); }
    } else {
      assert cs[0] in cs && AllFit(cs[1..]);
      ChunksInverse(cs[1..]);
      FirstChunk(cs[0], FrameAll(cs[1..]));
      assert [cs[0]] + cs[1..] == cs;
    }
  }

  lemma NoChunks()
    ensures Chunks([]) == Some([])
  {
  }

  // ---- the machine ----

  const MEMORY: Word32 := 0xfecacaca
  const IO: Word32 := 0xfeca1010
  const CPU: Word32 := 0xfeca0000
  const BOARD: Word32 := 0xfecababe

  const PALETTE_BYTES := 64

  /** Port latches: CW PA PB PC PIA1_last CW2 PA2 PB2 PC2. */
  datatype Io = Io(palette: seq<Byte>, latches: seq<Byte>)

  /** `cpu` is the memory image of the CPU structure. */
  datatype Machine = Machine(ram: M.Ram, io: Io, cpu: seq<Byte>, inte: bool, irq: bool, irqCarry: bool)

  predicate IoOk(io: Io) { |io.palette| == PALETTE_BYTES && |io.latches| == 9 }

  function Bool(b: bool): Byte { if b then 1 else 0 }

  function RamChunk(m: M.Ram): seq<Byte>
  {
    [Bool(m.modeStack), Bool(m.modeMap), m.pageMap, m.pageStack, M.TOTAL_MEMORY / 65536] + m.bytes + m.boot
  }

  function IoChunk(io: Io): seq<Byte> { io.palette + io.latches }

  function BoardChunk(m: Machine): seq<Byte> { [Bool(m.inte), Bool(m.irq), Bool(m.irqCarry)] }

  /** Memory::deserialize: a smaller or larger stored RAM is copied as far as it fits. None where the
      source would read past the chunk or select a page that does not exist. */
  function RestoreRam(m: M.Ram, d: seq<Byte>): Option<M.Ram>
  {
    if |d| < 5 then None
    else
      var stored := 65536 * (d[4] as int);
      if |d| < 5 + stored || d[2] >= 5 || d[3] >= 5 then None
      else
        var n := if stored < M.TOTAL_MEMORY then stored else M.TOTAL_MEMORY;
        Some(M.Ram(d[5..5 + n] + m.bytes[n..], d[0] != 0, d[1] != 0, d[2], d[3], d[5 + stored..]))
  }

  function RestoreIo(d: seq<Byte>): Option<Io>
  {
    if |d| < PALETTE_BYTES + 9 then None else Some(Io(d[..PALETTE_BYTES], d[PALETTE_BYTES..PALETTE_BYTES + 9]))
  }

  datatype Restored = Restored(machine: Machine, ok: bool)

  /** What Board::deserialize does with a list of chunks: empty ones are skipped, an unknown one ends it. */
  function Restore(m: Machine, cs: seq<Chunk>): Option<Restored>
    decreases |cs|
  {
    if cs == [] then Some(Restored(m, true))
    else
      var c := cs[0];
      if c.data == [] then Restore(m, cs[1..])
      else if c.id == MEMORY then
        match RestoreRam(m.ram, c.data) case None => None case Some(r) => Restore(m.(ram := r), cs[1..])
      else if c.id == IO then
        match RestoreIo(c.data) case None => None case Some(io) => Restore(m.(io := io), cs[1..])
      else if c.id == CPU then
        if |c.data| < |m.cpu| then None else Restore(m.(cpu := c.data[..|m.cpu|]), cs[1..])
      else if c.id == BOARD then
        if |c.data| < 3 then None
        else Restore(m.(inte := c.data[0] != 0, irq := c.data[1] != 0, irqCarry := c.data[2] != 0), cs[1..])
      else Some(Restored(m, false))
  }

  function Deserialize(m: Machine, from: seq<Byte>): Option<Restored>
  {
    match Chunks(from)
    case None => None
    case Some(cs) => Restore(m, cs)
  }

  function Saved(m: Machine): seq<Chunk>
  {
    [Chunk(MEMORY, RamChunk(m.ram)), Chunk(IO, IoChunk(m.io)), Chunk(CPU, m.cpu), Chunk(BOARD, BoardChunk(m))]
  }

  predicate Savable(m: Machine)
  {
    IoOk(m.io) && 0 < |m.cpu| < U32 && |RamChunk(m.ram)| < U32
  }

  function Serialize(m: Machine): seq<Byte>
    requires Savable(m)
  {
    FrameAll(Saved(m))
  }

  lemma RamRestored(m: M.Ram, was: M.Ram)
    ensures RestoreRam(was, RamChunk(m)) == Some(m)
  {
    var d := RamChunk(m);
    var n := M.TOTAL_MEMORY;
    assert d[4] == 5;
    assert d[0] == Bool(m.modeStack) && d[1] == Bool(m.modeMap) && d[2] == m.pageMap && d[3] == m.pageStack;
    assert d[5..5 + n] == m.bytes;
    assert m.bytes + was.bytes[n..] == m.bytes;
    assert d[5 + n..] == m.boot;
  }

  lemma IoRestored(io: Io)
    requires IoOk(io)
    ensures RestoreIo(IoChunk(io)) == Some(io)
  {
    assert IoChunk(io)[..PALETTE_BYTES] == io.palette && IoChunk(io)[PALETTE_BYTES..PALETTE_BYTES + 9] == io.latches;
  }

  lemma RestoreFirst(m: Machine, c: Chunk, cs: seq<Chunk>)
    requires c.data != []
    ensures c.id == MEMORY && RestoreRam(m.ram, c.data).Some? ==>
              Restore(m, [c] + cs) == Restore(m.(ram := RestoreRam(m.ram, c.data).value), cs)
    ensures c.id == IO && RestoreIo(c.data).Some? ==>
              Restore(m, [c] + cs) == Restore(m.(io := RestoreIo(c.data).value), cs)
    ensures c.id == CPU && |c.data| == |m.cpu| ==> Restore(m, [c] + cs) == Restore(m.(cpu := c.data), cs)
    ensures c.id == BOARD && |c.data| == 3 ==>
              Restore(m, [c] + cs)
              == Restore(m.(inte := c.data[0] != 0, irq := c.data[1] != 0, irqCarry := c.data[2] != 0), cs)
  {
    hide RestoreRam, RestoreIo;
    assert ([c] + cs)[1..] == cs;
    assert c.data[..|c.data|] == c.data;
  }

  /** Restoring a saved machine into any machine of the same CPU structure gives the saved one. */
  lemma SaveRestore(m: Machine, was: Machine)
    requires Savable(m) && |was.cpu| == |m.cpu|
    ensures Deserialize(was, Serialize(m)) == Some(Restored(m, true))
  {
    hide RestoreRam, RamChunk, RestoreIo, IoChunk, Chunks, FrameAll, Restore;
    assert AllFit(Saved(m)) by { SavedFit(m); }
    ChunksInverse(Saved(m));
    RamRestored(m.ram, was.ram);
    IoRestored(m.io);
    ChunksNotEmpty(m);
    var c1, c2, c3, c4 := Chunk(MEMORY, RamChunk(m.ram)), Chunk(IO, IoChunk(m.io)), Chunk(CPU, m.cpu),
      Chunk(BOARD, BoardChunk(m));
    assert Saved(m) == [c1] + [c2, c3, c4] && [c2, c3, c4] == [c2] + [c3, c4] && [c3, c4] == [c3] + [c4]
           && [c4] == [c4] + [];
    RestoreFirst(was, c1, [c2, c3, c4]);
    var m1 := was.(ram := m.ram);
    RestoreFirst(m1, c2, [c3, c4]);
    var m2 := m1.(io := m.io);
    RestoreFirst(m2, c3, [c4]);
    var m3 := m2.(cpu := m.cpu);
    RestoreFirst(m3, c4, []);
    RestoreNothing(m);
  }

  lemma SavedFit(m: Machine)
    requires Savable(m)
    ensures AllFit(Saved(m))
  {
  }

  lemma FrameStep(cs: seq<Chunk>, k: nat)
    requires k < |cs| && AllFit(cs[k..])
    ensures |cs[k].data| < U32 && AllFit(cs[k + 1..])
    ensures FrameAll(cs[k..]) == Frame(cs[k]) + FrameAll(cs[k + 1..])
  {
    hide Frame;
    assert cs[k..][1..] == cs[k + 1..] && cs[k..][0] == cs[k] && cs[k] in cs[k..];
    assert forall c <- cs[k + 1..] :: c in cs[k..];
  }

  lemma FrameNone(cs: seq<Chunk>)
    requires cs == []
    ensures AllFit(cs) && FrameAll(cs) == []
  {
  }

  lemma RestoreNothing(m: Machine)
    ensures Restore(m, []) == Some(Restored(m, true))
  {
  }

  lemma ChunksNotEmpty(m: Machine)
    requires Savable(m)
    ensures |RamChunk(m.ram)| > 0 && |IoChunk(m.io)| > 0
  {
  }

  // ---- Board::serialize and Board::deserialize ----

  lemma ChunksStep(s: seq<Byte>, at: nat)
    requires at < |s| && Chunks(s[at..]).Some?
    ensures at + 8 <= |s|
    ensures var n := ReadLe32(s[at + 4..at + 8]);
            && at + 8 + n <= |s| && Chunks(s[at + 8 + n..]).Some?
            && Chunks(s[at..]).value == [Chunk(ReadLe32(s[at..at + 4]), s[at + 8..at + 8 + n])]
               + Chunks(s[at + 8 + n..]).value
  {
    hide ReadLe32;
    var t := s[at..];
    assert t[..4] == s[at..at + 4] && t[4..8] == s[at + 4..at + 8];
    var n := ReadLe32(t[4..8]);
    assert t[8..8 + n] == s[at + 8..at + 8 + n] && t[8 + n..] == s[at + 8 + n..];
  }

  /** One step of Restore, for a chunk with data. */
  function Applied(m: Machine, c: Chunk): Option<Machine>
  {
    if c.id == MEMORY then match RestoreRam(m.ram, c.data) case None => None case Some(r) => Some(m.(ram := r))
    else if c.id == IO then match RestoreIo(c.data) case None => None case Some(io) => Some(m.(io := io))
    else if c.id == CPU then if |c.data| < |m.cpu| then None else Some(m.(cpu := c.data[..|m.cpu|]))
    else if c.id == BOARD then
      if |c.data| < 3 then None
      else Some(m.(inte := c.data[0] != 0, irq := c.data[1] != 0, irqCarry := c.data[2] != 0))
    else Some(m)
  }

  predicate KnownId(id: Word32) { id == MEMORY || id == IO || id == CPU || id == BOARD }

  lemma RestoreStep(m: Machine, c: Chunk, cs: seq<Chunk>)
    ensures Restore(m, [c] + cs) ==
              if c.data == [] then Restore(m, cs)
              else if !KnownId(c.id) then Some(Restored(m, false))
              else match Applied(m, c) case None => None case Some(n) => Restore(n, cs)
  {
    hide RestoreRam, RestoreIo;
    assert ([c] + cs)[1..] == cs;
  }

  class SavedBoard {
    var machine: Machine

    constructor (m: Machine)
      ensures machine == m
    {
      machine := m;
    }

    method Save() returns (to: seq<Byte>)
      requires Savable(machine)
      ensures to == Serialize(machine)
    {
      hide Frame, Saved, FrameAll, AllFit;
      to := [];
      var cs := Saved(machine);
      SavedFit(machine);
      assert cs[0..] == cs;
      for k := 0 to |cs|
        invariant AllFit(cs[k..]) && to + FrameAll(cs[k..]) == FrameAll(cs)
      {
        FrameStep(cs, k);
        assert to + (Frame(cs[k]) + FrameAll(cs[k + 1..])) == to + Frame(cs[k]) + FrameAll(cs[k + 1..]);
        to := to + Frame(cs[k]);
      }
      FrameNone(cs[|cs|..]);
    }

    /** The chunk loop: whatever the machine was, the chunks are applied in order up to an unknown one. */
    method Load(from: seq<Byte>) returns (ok: bool)
      requires Deserialize(machine, from).Some?
      modifies this
      ensures Deserialize(old(machine), from) == Some(Restored(machine, ok))
    {
      hide Chunks, Restore, Applied, ReadLe32;
      var it: nat := 0;
      assert from[0..] == from;
      ok := true;
      while it < |from| && ok
        invariant it <= |from|
        invariant ok ==> Chunks(from[it..]).Some?
        invariant ok ==> Restore(machine, Chunks(from[it..]).value) == Deserialize(old(machine), from)
        invariant !ok ==> Deserialize(old(machine), from) == Some(Restored(machine, false))
        decreases |from| - it, ok
      {
        ChunksStep(from, it);
        var size := ReadLe32(from[it + 4..it + 8]);
        var c := Chunk(ReadLe32(from[it..it + 4]), from[it + 8..it + 8 + size]);
        RestoreStep(machine, c, Chunks(from[it + 8 + size..]).value);
        it := it + 8 + size;
        if size > 0 {
          if KnownId(c.id) {
            machine := Applied(machine, c).value;
          } else {
            ok := false;
          }
        }
      }
      if ok {
        assert from[it..] == [];
        NoChunks();
        RestoreNothing(machine);
      }
    }
  }
}
