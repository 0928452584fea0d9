/** The FD1793 floppy controller (src/fd1793.h): sector transfers through the data port. */
module Fdc {
  import opened Words

  // ---- drives ----

  /** An FDisk of the Vector-06C format: 2 sides, 5 sectors of 1024 bytes. */
  datatype Disk = Disk(bytes: seq<Byte>, position: int, offset: int, length: int, fromBuffer: bool, buffer: seq<int>,
                       track: int, side: int, sector: int, data: int)

  const SECTOR := 1024

  predicate IsReady(d: Disk) { |d.bytes| > 0 }

  function SectorPos(track: int, side: int, sector: int): int
  {
    (10 * track + 5 * side + if sector != 0 then sector - 1 else 0) * SECTOR
  }

  /** Sectors 1 to 5 of different tracks and sides do not overlap. */
  lemma SectorsDisjoint(t: int, h: int, s: int, t': int, h': int, s': int)
    requires 0 <= h <= 1 && 0 <= h' <= 1 && 1 <= s <= 5 && 1 <= s' <= 5
    ensures (t, h, s) != (t', h', s') ==>
              SectorPos(t, h, s) + SECTOR <= SectorPos(t', h', s')
                || SectorPos(t', h', s') + SECTOR <= SectorPos(t, h, s)
  {
    var a, b := 10 * t + 5 * h + s - 1, 10 * t' + 5 * h' + s' - 1;
    if a == b {
      assert t == t' && h == h' && s == s';
    } else if a < b {
      assert (a + 1) * SECTOR <= b * SECTOR;
    } else {
      assert (b + 1) * SECTOR <= a * SECTOR;
    }
  }

  function SeekOf(d: Disk, track: int, sector: int, side: int): Disk
  {
    if IsReady(d) then d.(position := SectorPos(track, side, sector), track := track, side := side) else d
  }

  /** readSector and writeSector prepare the same transfer. */
  function TransferOf(d: Disk, sector: int): Disk
  {
    var e := d.(length := SECTOR, offset := 0, fromBuffer := false, sector := sector);
    SeekOf(e, e.track, sector, e.side)
  }

  function ReadAddressOf(d: Disk): Disk
  {
    d.(length := 6, fromBuffer := true, offset := 0, buffer := [d.track, d.side, d.sector, 3, 0, 0])
  }

  function At<T>(s: seq<T>, i: int, none: T): T { if 0 <= i < |s| then s[i] else none }

  /** Next byte of a transfer, and whether there was none. */
  function DiskRead(d: Disk): (Disk, bool)
  {
    if d.offset >= d.length then (d, true)
    else (d.(data := if d.fromBuffer then At(d.buffer, d.offset, 0) else At(d.bytes, d.position + d.offset, 0),
             offset := d.offset + 1), false)
  }

  function DiskWrite(d: Disk, b: Byte): (Disk, bool)
  {
    if d.offset >= d.length then (d, true)
    else
      var i := d.position + d.offset;
      (d.(bytes := if 0 <= i < |d.bytes| then d.bytes[i := b] else d.bytes, offset := d.offset + 1), false)
  }

  // ---- the controller ----

  type Drive = n: int | 0 <= n < 4

  datatype Transfer = NoTransfer | ReadSector | ReadAddress | WriteSector

  datatype Fdc = Fdc(disk: Disk, side: int, intrq: bool, data: Byte, notReady: bool, seekErr: bool, drq: bool,
    busy: bool,
                     transfer: Transfer, track: int, sector: int, stepdir: int, linger: int, lingerBefore: int)

  /** The selected disk's part of exec. */
  function ExecOf(f: Fdc): Fdc
  {
    match f.transfer
    case NoTransfer => f.(busy := false)
    case WriteSector =>
      if f.drq then f
      else
        var (d, finished) := DiskWrite(f.disk, f.data);
        if finished then f.(disk := d, busy := false, intrq := true) else f.(disk := d, drq := true)
    case _ =>
      if f.drq then f
      else
        var (d, finished) := DiskRead(f.disk);
        if finished then f.(disk := d, busy := false, intrq := true)
          else f.(disk := d, drq := true, data := ToByte(d.data))
  }

  const LINGER_AFTER := 2

  function Sampled(f: Fdc): Fdc { f.(notReady := !IsReady(f.disk)) }

  /** Reading the status port: a busy controller idles for a while, then starts. */
  function PollStatusOf(f: Fdc): Fdc
  {
    var g := Sampled(f);
    (if !g.busy || g.linger > LINGER_AFTER then g
     else if g.linger < LINGER_AFTER then g.(linger := g.linger + 1)
     else ExecOf(g.(linger := g.linger + 1))).(intrq := false)
  }

  function ReadDataOf(f: Fdc): Fdc { ExecOf(Sampled(f).(drq := false)) }

  function PollReadyOf(f: Fdc): Fdc
  {
    var g := Sampled(f);
    if g.busy then ExecOf(g) else g
  }

  function WriteDataOf(f: Fdc, b: Byte): Fdc { ExecOf(f.(data := b, drq := false)) }

  function SelectSectorOf(f: Fdc, s: Byte): Fdc { f.(sector := s, drq := false) }

  function CommandOf(f0: Fdc, val: Byte): Fdc
  {
    var f := f0.(intrq := false, transfer := NoTransfer);
    var cmd := val / 16;
    match cmd
    case 0 => RestoreOf(f)
    case 1 => SeekCommandOf(f)
    case 8 => StartOf(f, ReadSector)
    case 9 => StartOf(f, ReadSector)
    case 10 => StartOf(f, WriteSector)
    case 11 => StartOf(f, WriteSector)
    case 12 => f.(transfer := ReadAddress, busy := true, linger := f.lingerBefore, disk := ReadAddressOf(f.disk))
    case _ =>
      if cmd >= 13 then f else StepOf(f, cmd)
  }

  /** To the track in the data register. */
  function SeekCommandOf(f: Fdc): Fdc
  {
    f.(disk := SeekOf(f.disk, f.data, f.sector, f.side), track := f.data, intrq := true, busy := true,
       linger := f.lingerBefore)
  }

  /** Back to track 0. */
  function RestoreOf(f: Fdc): Fdc
  {
    if IsReady(f.disk) then f.(intrq := true, track := 0, disk := SeekOf(f.disk, 0, 1, f.side))
    else f.(intrq := true, seekErr := true)
  }

  /** Step, step in and step out, commands 2 to 7. */
  function StepOf(f: Fdc, cmd: int): Fdc
  {
    var dir := if cmd <= 3 then f.stepdir else if cmd <= 5 then 1 else -1;
    var t := f.track + dir;
    f.(stepdir := dir, track := if (cmd <= 3 || cmd >= 6) && t < 0 then 0 else t,
       busy := true, linger := f.lingerBefore)
  }

  function StartOf(f: Fdc, t: Transfer): Fdc
  {
    f.(transfer := t, busy := true, linger := f.lingerBefore, drq := f.drq || t.WriteSector?,
       disk := TransferOf(SeekOf(f.disk, f.track, f.sector, f.side), f.sector))
  }

  // ---- what a program does during a transfer ----

  datatype Op = PollStatus | PollReady | ReadTrack | ReadSectorRegister | ReadData | WriteData(b: Byte)

  function Do(f: Fdc, op: Op): (Fdc, seq<Byte>)
  {
    match op
    case PollStatus => (PollStatusOf(f), [])
    case PollReady => (PollReadyOf(f), [])
    case ReadTrack => (Sampled(f), [])
    case ReadSectorRegister => (Sampled(f), [])
    case ReadData => (ReadDataOf(f), [f.data])
    case WriteData(b) => (WriteDataOf(f, b), [])
  }

  /** State after a series of accesses, and the bytes read. */
  function RunOf(f: Fdc, ops: seq<Op>): (Fdc, seq<Byte>)
  {
    if ops == [] then (f, [])
    else
      var (g, bs) := RunOf(f, ops[..|ops| - 1]);
      var (h, b) := Do(g, ops[|ops| - 1]);
      (h, bs + b)
  }

  predicate IsPoll(op: Op) { !op.ReadData? && !op.WriteData? }

  // ---- reading a sector ----

  predicate SectorOnDisk(d: Disk, img: seq<Byte>, pos: int)
  {
    0 <= pos && pos + SECTOR <= |img| && d.bytes == img && d.position == pos && d.length == SECTOR && !d.fromBuffer
  }

  /** Before the first exec of a read command. */
  predicate Armed(f: Fdc, img: seq<Byte>, pos: int)
  {
    f.transfer.ReadSector? && f.busy && !f.drq && SectorOnDisk(f.disk, img, pos) && f.disk.offset == 0
  }

  /** k bytes have been read; the next one waits in the data register, or the transfer is over. */
  predicate Reading(f: Fdc, img: seq<Byte>, pos: int, k: nat)
  {
    && f.transfer.ReadSector? && SectorOnDisk(f.disk, img, pos) && k <= SECTOR
    && (if k < SECTOR then f.busy && f.drq && f.disk.offset == k + 1 && f.data == img[pos + k]
        else !f.busy && !f.drq && f.disk.offset == SECTOR)
  }

  lemma PollKeeps(f: Fdc, img: seq<Byte>, pos: int, k: nat, op: Op)
    requires Reading(f, img, pos, k) && IsPoll(op)
    ensures Reading(Do(f, op).0, img, pos, k) && Do(f, op).1 == []
  {
  }

  lemma DataStep(f: Fdc, img: seq<Byte>, pos: int, k: nat)
    requires Reading(f, img, pos, k) && k < SECTOR
    ensures Reading(Do(f, ReadData).0, img, pos, k + 1) && Do(f, ReadData).1 == [img[pos + k]]
  {
  }

  function DataReads(ops: seq<Op>): nat
  {
    if ops == [] then 0 else DataReads(ops[..|ops| - 1]) + if ops[|ops| - 1].ReadData? then 1 else 0
  }

  predicate NoWrites(ops: seq<Op>) { forall i | 0 <= i < |ops| :: !ops[i].WriteData? }

  /** However polls and data reads are interleaved, the data port yields the sector in order,
      and the controller stays busy until its last byte has been read. */
  lemma {:induction false} ReadTransfer(f: Fdc, img: seq<Byte>, pos: int, ops: seq<Op>)
    requires Reading(f, img, pos, 0) && NoWrites(ops) && DataReads(ops) <= SECTOR
    ensures Reading(RunOf(f, ops).0, img, pos, DataReads(ops))
    ensures RunOf(f, ops).1 == img[pos..pos + DataReads(ops)]
    ensures RunOf(f, ops).0.busy <==> DataReads(ops) < SECTOR
  {
    hide Do, Reading, RunOf;
    RunStep(f, ops);
    InImage(f, img, pos);
    if ops != [] {
      var p, op := ops[..|ops| - 1], ops[|ops| - 1];
      assert NoWrites(p) && !op.WriteData?;
      ReadTransfer(f, img, pos, p);
      var g, k := RunOf(f, p).0, DataReads(p);
      if op.ReadData? {
        DataStep(g, img, pos, k);
        assert img[pos..pos + k] + [img[pos + k]] == img[pos..pos + k + 1];
      } else {
        PollKeeps(g, img, pos, k, op);
        assert img[pos..pos + k] + [] == img[pos..pos + k];
      }
    }
    BusyWhileReading(RunOf(f, ops).0, img, pos, DataReads(ops));
  }

  lemma RunStep(f: Fdc, ops: seq<Op>)
    ensures RunOf(f, ops) == if ops == [] then (f, []) else
              var r := RunOf(f, ops[..|ops| - 1]);
              (Do(r.0, ops[|ops| - 1]).0, r.1 + Do(r.0, ops[|ops| - 1]).1)
  {
    hide Do;
  }

  lemma InImage(f: Fdc, img: seq<Byte>, pos: int)
    requires Reading(f, img, pos, 0)
    ensures 0 <= pos && pos + SECTOR <= |img|
  {
  }

  lemma BusyWhileReading(f: Fdc, img: seq<Byte>, pos: int, k: nat)
    requires Reading(f, img, pos, k)
    ensures f.busy <==> k < SECTOR
  {
  }

  /** A read command with DRQ clear arms the transfer of the addressed sector. */
  lemma ReadCommandArms(f: Fdc, val: Byte)
    requires val / 16 == 8 || val / 16 == 9
    requires var pos := SectorPos(f.track, f.side, f.sector); 0 <= pos && pos + SECTOR <= |f.disk.bytes|
    ensures var g := CommandOf(f, val);
            && SectorOnDisk(g.disk, f.disk.bytes, SectorPos(f.track, f.side, f.sector)) && g.disk.offset == 0
            && g.transfer.ReadSector? && g.busy && g.drq == f.drq && g.data == f.data && g.linger == f.lingerBefore
  {
  }

  /** With DRQ left set it does not work: the first data read returns the stale data register,
      and only then the sector starts. */
  lemma StaleByteFirst(f: Fdc, img: seq<Byte>, pos: int)
    requires f.transfer.ReadSector? && f.busy && f.drq && SectorOnDisk(f.disk, img, pos) && f.disk.offset == 0
    ensures Do(f, ReadData).1 == [f.data] && Reading(Do(f, ReadData).0, img, pos, 0)
    ensures ExecOf(f) == f
  {
  }

  // ---- writing a sector ----

  function Written(ops: seq<Op>): seq<Byte>
  {
    if ops == [] then []
    else Written(ops[..|ops| - 1]) + if ops[|ops| - 1].WriteData? then [ops[|ops| - 1].b] else []
  }

  predicate NoReads(ops: seq<Op>) { forall i | 0 <= i < |ops| :: !ops[i].ReadData? }

  function Patch(img: seq<Byte>, pos: nat, ws: seq<Byte>): (r: seq<Byte>)
    requires pos + |ws| <= |img|
    ensures |r| == |img|
  {
    img[..pos] + ws + img[pos + |ws|..]
  }

  /** The bytes ws have been written so far. */
  predicate Writing(f: Fdc, img: seq<Byte>, pos: int, ws: seq<Byte>)
  {
    && f.transfer.WriteSector? && f.busy && f.drq && |ws| <= SECTOR && 0 <= pos && pos + SECTOR <= |img|
    && SectorOnDisk(f.disk, Patch(img, pos, ws), pos) && f.disk.offset == |ws|
  }

  lemma WritePollKeeps(f: Fdc, img: seq<Byte>, pos: int, ws: seq<Byte>, op: Op)
    requires Writing(f, img, pos, ws) && IsPoll(op)
    ensures Writing(Do(f, op).0, img, pos, ws)
  {
    hide Patch;
  }

  lemma WriteStep(f: Fdc, img: seq<Byte>, pos: int, ws: seq<Byte>, b: Byte)
    requires Writing(f, img, pos, ws) && |ws| < SECTOR
    ensures Writing(Do(f, WriteData(b)).0, img, pos, ws + [b])
  {
    var i := pos + |ws|;
    assert Patch(img, pos, ws)[i := b] == Patch(img, pos, ws + [b]);
    hide Patch;
  }

  /** Every byte written to the data port goes to the next place of the sector. */
  lemma {:induction false} WriteTransfer(f: Fdc, img: seq<Byte>, pos: int, ops: seq<Op>)
    requires Writing(f, img, pos, []) && NoReads(ops) && |Written(ops)| <= SECTOR
    ensures Writing(RunOf(f, ops).0, img, pos, Written(ops))
  {
    hide Do, Writing;
    if ops != [] {
      var p, op := ops[..|ops| - 1], ops[|ops| - 1];
      WriteTransfer(f, img, pos, p);
      var g := RunOf(f, p).0;
      if op.WriteData? {
        WriteStep(g, img, pos, Written(p), op.b);
      } else {
        assert Written(ops) == Written(p);
        WritePollKeeps(g, img, pos, Written(p), op);
      }
    }
  }

  lemma WriteCommandStarts(f: Fdc, val: Byte)
    requires val / 16 == 10 || val / 16 == 11
    requires var pos := SectorPos(f.track, f.side, f.sector); 0 <= pos && pos + SECTOR <= |f.disk.bytes|
    ensures var g := CommandOf(f, val);
            Writing(g, f.disk.bytes, SectorPos(f.track, f.side, f.sector), []) && Untouched(f, g)
  {
    var pos := SectorPos(f.track, f.side, f.sector);
    assert Patch(f.disk.bytes, pos, []) == f.disk.bytes;
    hide Patch;
  }

  predicate Untouched(f: Fdc, g: Fdc)
  {
    g.track == f.track && g.side == f.side && g.sector == f.sector && g.lingerBefore == f.lingerBefore
  }

  lemma {:induction false} RegistersKept(f: Fdc, ops: seq<Op>)
    ensures Untouched(f, RunOf(f, ops).0)
  {
    if ops != [] {
      RegistersKept(f, ops[..|ops| - 1]);
      var g := RunOf(f, ops[..|ops| - 1]).0;
      OpKeeps(g, ops[|ops| - 1]);
      hide Do;
    }
  }

  lemma OpKeeps(f: Fdc, op: Op)
    ensures Untouched(f, Do(f, op).0)
  {
    ExecKeeps(f.(data := if op.WriteData? then op.b else f.data, drq := false));
    ExecKeeps(Sampled(f).(drq := false));
    ExecKeeps(Sampled(f));
    ExecKeeps(Sampled(f).(linger := f.linger + 1));
    hide ExecOf;
  }

  lemma ExecKeeps(f: Fdc)
    ensures Untouched(f, ExecOf(f))
  {
    hide DiskRead, DiskWrite;
  }

  function StatusPolls(polls: seq<Op>): nat
  {
    if polls == [] then 0 else StatusPolls(polls[..|polls| - 1]) + if polls[|polls| - 1].PollStatus? then 1 else 0
  }

  predicate HasReadyPoll(polls: seq<Op>) { exists i | 0 <= i < |polls| :: polls[i].PollReady? }

  /** A ready poll, or enough status polls from a linger time that has not run past its end. */
  predicate Starts(linger: int, polls: seq<Op>)
  {
    HasReadyPoll(polls) || (linger <= LINGER_AFTER && StatusPolls(polls) > LINGER_AFTER - linger)
  }

  lemma ReadyPollLast(polls: seq<Op>)
    requires polls != []
    ensures HasReadyPoll(polls) <==> HasReadyPoll(polls[..|polls| - 1]) || polls[|polls| - 1].PollReady?
  {
    var p := polls[..|polls| - 1];
    if i :| 0 <= i < |p| && p[i].PollReady? {
      assert polls[i].PollReady?;
    }
    if i :| 0 <= i < |polls| && polls[i].PollReady? {
      assert i < |p| ==> p[i].PollReady?;
    }
  }

  /** Still armed, with the linger time counted on unless it started past its end. */
  predicate Waiting(f: Fdc, linger: int, img: seq<Byte>, pos: int, n: nat)
  {
    Armed(f, img, pos) && f.linger == if linger > LINGER_AFTER then linger else linger + n
  }

  lemma WaitStep(f: Fdc, linger: int, img: seq<Byte>, pos: int, n: nat, op: Op)
    requires Waiting(f, linger, img, pos, n) && IsPoll(op) && (linger <= LINGER_AFTER ==> n <= LINGER_AFTER - linger)
    ensures var m := if op.PollStatus? then n + 1 else n;
            if op.PollReady? || (op.PollStatus? && linger <= LINGER_AFTER && m > LINGER_AFTER - linger)
            then Reading(Do(f, op).0, img, pos, 0)
            else Waiting(Do(f, op).0, linger, img, pos, m)
  {
  }

  /** An armed transfer starts exactly with a ready poll or enough status polls. A linger time past its
      end, which the uninitialised LINGER_BEFORE may well be, makes status polls alone wait forever. */
  lemma {:induction false} ArmedReaches(f: Fdc, img: seq<Byte>, pos: int, polls: seq<Op>)
    requires Armed(f, img, pos) && forall i | 0 <= i < |polls| :: IsPoll(polls[i])
    ensures Reading(RunOf(f, polls).0, img, pos, 0) <==> Starts(f.linger, polls)
    ensures !Starts(f.linger, polls) ==> Waiting(RunOf(f, polls).0, f.linger, img, pos, StatusPolls(polls))
  {
    hide Do;
    if polls != [] {
      var p, op := polls[..|polls| - 1], polls[|polls| - 1];
      ArmedReaches(f, img, pos, p);
      ReadyPollLast(polls);
      var g := RunOf(f, p).0;
      hide HasReadyPoll;
      if Starts(f.linger, p) {
        PollKeeps(g, img, pos, 0, op);
      } else {
        WaitStep(g, f.linger, img, pos, StatusPolls(p), op);
      }
    }
  }

  /** Reading the data port before that returns the stale data register first. */
  lemma EarlyRead(f: Fdc, img: seq<Byte>, pos: int)
    requires Armed(f, img, pos)
    ensures Do(f, ReadData).1 == [f.data] && Reading(Do(f, ReadData).0, img, pos, 0)
  {
  }

  /** Write 1024 bytes, select the sector again, poll until the transfer has started, read: the bytes come
      back, and every byte outside the sector is as before. */
  lemma WriteThenRead(f: Fdc, wcmd: Byte, writes: seq<Op>, rcmd: Byte, polls: seq<Op>, fetches: seq<Op>)
    requires (wcmd / 16 == 10 || wcmd / 16 == 11) && (rcmd / 16 == 8 || rcmd / 16 == 9) && 0 <= f.sector < 256
    requires var pos := SectorPos(f.track, f.side, f.sector); 0 <= pos && pos + SECTOR <= |f.disk.bytes|
    requires NoReads(writes) && |Written(writes)| == SECTOR
    requires forall i | 0 <= i < |polls| :: IsPoll(polls[i])
    requires Starts(f.lingerBefore, polls)
    requires NoWrites(fetches) && DataReads(fetches) == SECTOR
    ensures var pos := SectorPos(f.track, f.side, f.sector);
            var w := RunOf(CommandOf(f, wcmd), writes).0;
            var r := RunOf(CommandOf(SelectSectorOf(w, f.sector), rcmd), polls).0;
            var (done, bytes) := RunOf(r, fetches);
            && bytes == Written(writes) && !done.busy
            && done.disk.bytes == Patch(f.disk.bytes, pos, Written(writes))
  {
    hide Patch, Do, CommandOf, SectorPos, RunOf, Starts;
    var pos := SectorPos(f.track, f.side, f.sector);
    var img := f.disk.bytes;
    WriteCommandStarts(f, wcmd);
    var w0 := CommandOf(f, wcmd);
    WriteTransfer(w0, img, pos, writes);
    RegistersKept(w0, writes);
    var w := RunOf(w0, writes).0;
    var ws := Written(writes);
    var img2 := Patch(img, pos, ws);
    var s := SelectSectorOf(w, f.sector);
    ReadCommandArms(s, rcmd);
    var c := CommandOf(s, rcmd);
    ArmedReaches(c, img2, pos, polls);
    ReadTransfer(RunOf(c, polls).0, img2, pos, fetches);
    assert img2[pos..pos + SECTOR] == ws by { PatchHere(img, pos, ws); }
  }

  lemma PatchHere(img: seq<Byte>, pos: nat, ws: seq<Byte>)
    requires pos + |ws| <= |img|
    ensures Patch(img, pos, ws)[pos..pos + |ws|] == ws
  {
  }

  /** Other sectors keep their bytes. */
  lemma OtherSectorKept(img: seq<Byte>, pos: nat, ws: seq<Byte>, q: nat)
    requires pos + |ws| <= |img| && q + SECTOR <= |img| && (q + SECTOR <= pos || pos + |ws| <= q)
    ensures Patch(img, pos, ws)[q..q + SECTOR] == img[q..q + SECTOR]
  {
  }

  // ---- the ports ----

  function StatusByte(f: Fdc): int
  {
    (if f.notReady then 0x80 else 0) + (if f.seekErr then 0x10 else 0) + (if f.drq then 2 else 0)
      + (if f.busy then 1 else 0)
  }

  /** What the status port shows: a lingering controller still pretends to be idle. */
  function ShownStatus(f: Fdc): int
  {
    var g := Sampled(f);
    if g.busy && g.linger < 0 then StatusByte(g.(busy := false))
    else if g.busy && g.linger == LINGER_AFTER then StatusByte(ExecOf(g))
    else StatusByte(g)
  }

  function ReadOf(f: Fdc, addr: int): (Fdc, int)
  {
    match addr
    case 0 => (PollStatusOf(f), ShownStatus(f))
    case 1 => (Sampled(f), f.track)
    case 2 => (Sampled(f), f.sector)
    case 3 => (ReadDataOf(f), f.data)
    case 4 =>
      var g := PollReadyOf(f);
      (g, (if g.intrq then 1 else 0) + if g.drq then 0x80 else 0)
    case _ => (Sampled(f), -1)
  }

  ghost predicate OthersKept(before: seq<Disk>, now: seq<Disk>, sel: Drive)
  {
    |now| == |before| && forall i | 0 <= i < |now| && i != sel :: now[i] == before[i]
  }

  class FD1793 {
    var disks: seq<Disk>
    var sel: Drive
    var side: int
    var intrq: bool
    var data: Byte
    var notReady: bool
    var seekErr: bool
    var drq: bool
    var busy: bool
    var transfer: Transfer
    var track: int
    var sector: int
    var stepdir: int
    var linger: int
    const lingerBefore: int

    ghost predicate Valid()
      reads this
    {
      |disks| == 4
    }

    function Abs(): Fdc
      reads this
      requires |disks| == 4
    {
      Fdc(disks[sel], side, intrq, data, notReady, seekErr, drq, busy, transfer, track, sector, stepdir, linger,
        lingerBefore)
    }

    method Exec()
      requires Valid()
      modifies this`disks, this`intrq, this`data, this`drq, this`busy
      ensures Valid() && Abs() == ExecOf(old(Abs())) && OthersKept(old(disks), disks, sel)
    {
      hide DiskRead, DiskWrite;
      if transfer.ReadSector? || transfer.ReadAddress? {
        if drq {
          return;
        }
        var (d, finished) := DiskRead(disks[sel]);
        disks := disks[sel := d];
        if finished {
          busy, intrq := false, true;
        } else {
          drq, data := true, ToByte(d.data);
        }
      } else if transfer.WriteSector? {
        if !drq {
          var (d, finished) := DiskWrite(disks[sel], data);
          disks := disks[sel := d];
          if finished {
            busy, intrq := false, true;
          } else {
            drq := true;
          }
        }
      } else {
        busy := false;
      }
    }

    method ReadStatus() returns (result: int)
      requires Valid()
      modifies this`disks, this`intrq, this`data, this`drq, this`busy, this`notReady, this`linger
      ensures Valid() && Abs() == PollStatusOf(old(Abs())) && result == ShownStatus(old(Abs()))
              && OthersKept(old(disks), disks, sel)
    {
      hide ExecOf, DiskRead, DiskWrite;
      notReady := !IsReady(disks[sel]);
      result := StatusByte(Abs());
      if busy {
        if linger < 0 {
          result := result - 1;
          linger := linger + 1;
        } else if linger < LINGER_AFTER {
          linger := linger + 1;
        } else if linger == LINGER_AFTER {
          SameStatus(Abs());
          linger := linger + 1;
          Exec();
          hide StatusByte;
          result := StatusByte(Abs());
        }
      }
      intrq := false;
    }

    method Read(addr: int) returns (result: int)
      requires Valid()
      modifies this`disks, this`intrq, this`data, this`drq, this`busy, this`notReady, this`linger
      ensures Valid() && Abs() == ReadOf(old(Abs()), addr).0 && result == ReadOf(old(Abs()), addr).1
      ensures OthersKept(old(disks), disks, sel)
    {
      hide ExecOf, PollStatusOf, ShownStatus;
      if addr == 0 {
        result := ReadStatus();
        return;
      }
      notReady := !IsReady(disks[sel]);
      match addr {
        case 1 => result := track;
        case 2 => result := sector;
        case 3 =>
          result := data;
          drq := false;
          Exec();
        case 4 =>
          if busy {
            Exec();
          }
          result := (if intrq then 1 else 0) + if drq then 0x80 else 0;
        case _ => result := -1;
      }
    }

    /** Prepare the transfer of the addressed sector. */
    method Start(t: Transfer)
      requires Valid()
      modifies this`disks, this`transfer, this`busy, this`linger, this`drq
      ensures Valid() && Abs() == StartOf(old(Abs()), t) && OthersKept(old(disks), disks, sel)
    {
      hide SectorPos;
      transfer, busy := t, true;
      if t.WriteSector? {
        drq := true;
      }
      disks := disks[sel := SeekOf(disks[sel], track, sector, side)];
      disks := disks[sel := TransferOf(disks[sel], sector)];
      linger := lingerBefore;
    }

    method Command(val: Byte)
      requires Valid()
      modifies this`disks, this`intrq, this`transfer, this`busy, this`drq, this`seekErr, this`track, this`stepdir,
               this`linger
      ensures Valid() && Abs() == CommandOf(old(Abs()), val) && OthersKept(old(disks), disks, sel)
    {
      hide ReadAddressOf, StartOf, StepOf, RestoreOf, SeekCommandOf;
      intrq, transfer := false, NoTransfer;
      var cmd := val / 16;
      match cmd {
        case 0 => Restore();
        case 1 => SeekTrack();
        case 8 => Start(ReadSector);
        case 9 => Start(ReadSector);
        case 10 => Start(WriteSector);
        case 11 => Start(WriteSector);
        case 12 =>
          transfer, busy := ReadAddress, true;
          disks := disks[sel := ReadAddressOf(disks[sel])];
          linger := lingerBefore;
        case _ =>
          if cmd < 13 {
            Step(cmd);
          }
      }
    }

    method SeekTrack()
      requires Valid()
      modifies this`disks, this`intrq, this`track, this`busy, this`linger
      ensures Valid() && Abs() == SeekCommandOf(old(Abs())) && OthersKept(old(disks), disks, sel)
    {
      hide SeekOf;
      disks := disks[sel := SeekOf(disks[sel], data, sector, side)];
      track, intrq, busy, linger := data, true, true, lingerBefore;
    }

    method Restore()
      requires Valid()
      modifies this`disks, this`intrq, this`seekErr, this`track
      ensures Valid() && Abs() == RestoreOf(old(Abs())) && OthersKept(old(disks), disks, sel)
    {
      hide SeekOf;
      intrq := true;
      if IsReady(disks[sel]) {
        track := 0;
        disks := disks[sel := SeekOf(disks[sel], track, 1, side)];
      } else {
        seekErr := true;
      }
    }

    method Step(cmd: int)
      requires Valid()
      modifies this`track, this`stepdir, this`linger, this`busy
      ensures Valid() && Abs() == StepOf(old(Abs()), cmd)
    {
      if cmd > 3 {
        stepdir := if cmd <= 5 then 1 else -1;
      }
      track := track + stepdir;
      if track < 0 && (cmd <= 3 || cmd >= 6) {
        track := 0;
      }
      linger, busy := lingerBefore, true;
    }

    /** Port writes: command, track, sector, data, and the drive and side selection. */
    method Write(addr: int, val: Byte)
      requires Valid()
      modifies this
      ensures Valid() && (addr == 4 ==> disks == old(disks) && sel == val % 4)
      ensures addr != 4 ==> sel == old(sel) && OthersKept(old(disks), disks, sel)
      ensures Abs() == (match addr
                        case 0 => CommandOf(old(Abs()), val)
                        case 1 => old(Abs()).(track := val, drq := false)
                        case 2 => SelectSectorOf(old(Abs()), val)
                        case 3 => WriteDataOf(old(Abs()), val)
                        case 4 => old(Abs()).(disk := disks[val % 4], side := 1 - val / 4 % 2)
                        case _ => old(Abs()))
    {
      hide CommandOf, ExecOf;
      match addr {
        case 0 => Command(val);
        case 1 => track, drq := val, false;
        case 2 => sector, drq := val, false;
        case 3 =>
          data, drq := val, false;
          Exec();
        case 4 => sel, side := val % 4, 1 - val / 4 % 2;
        case _ =>
      }
    }
  }

  /** The status does not depend on how long the controller has lingered. */
  lemma SameStatus(f: Fdc)
    ensures StatusByte(ExecOf(f.(linger := f.linger + 1))) == StatusByte(ExecOf(f))
  {
    hide DiskRead, DiskWrite;
  }
}
