/** An 820K disk whose directory is full while clusters are free: saving one more byte reports success,
    and the file reads back empty (src/fsimage.cpp). */
module FsExamples {
  import opened Words
  import opened Numbers
  import opened FsLayout
  import opened FsImage
  import opened FsClass

  const DISK_BYTES := 839680
  const NEW_NAME: Name := [78, 69, 87, 32, 32, 32, 32, 32]   // NEW
  const NEW_EXT: Ext := [84, 88, 84]                         // TXT

  /** The k-th of 128 files of one cluster each. */
  function FullEntry(k: nat): Entry
    requires k < DIR_ENTRIES
  {
    Entry(0, [70, 65 + k / 16, 65 + k % 16, 32, 32, 32, 32, 32], NEW_EXT, 0, 0, 0, 1, [2 + k, 0, 0, 0, 0, 0, 0, 0])
  }

  function FullByte(i: nat): Byte
  {
    if DIR_START <= i < DIR_START + 32 * DIR_ENTRIES
    then EntryBytes(FullEntry((i - DIR_START) / 32))[(i - DIR_START) % 32] else FILLER
  }

  function FullDisk(): Image { seq(DISK_BYTES, i requires 0 <= i < DISK_BYTES => FullByte(i)) }

  function FullDir(): seq<Entry> { seq(DIR_ENTRIES, k requires 0 <= k < DIR_ENTRIES => FullEntry(k)) }

  lemma FullEntryAt(k: nat)
    requires k < DIR_ENTRIES
    ensures EntryAt(FullDisk(), k) == FullEntry(k)
  {
    hide EntryBytes, ParseEntry, FullEntry;
    var d := FullDisk()[EntryPos(k)..EntryPos(k) + 32];
    forall j | 0 <= j < 32 ensures d[j] == EntryBytes(FullEntry(k))[j] {
      DivUnique(32 * k + j, 32, k, j);
    }
    assert d == EntryBytes(FullEntry(k));
    EntryInverse(FullEntry(k));
  }

  lemma DirIsFull()
    ensures Dir(FullDisk()) == FullDir() && MaxCluster(FullDisk()) == 380
  {
    hide EntryAt, FullEntry, FullByte;
    forall k | 0 <= k < DIR_ENTRIES ensures Dir(FullDisk())[k] == FullDir()[k] {
      FullEntryAt(k);
    }
  }

  lemma {:induction false} CountsActive(d: seq<Entry>)
    requires forall k | 0 <= k < |d| :: Active(d[k])
    ensures ActiveCount(d) == |d|
  {
    if d != [] {
      CountsActive(d[..|d| - 1]);
    }
  }

  lemma {:induction false} NoneFree(d: seq<Entry>, k: nat)
    requires k <= |d| && forall j | 0 <= j < |d| :: Active(d[j])
    ensures FreeBefore(d, k) == 0
  {
    if k > 0 {
      NoneFree(d, k - 1);
    }
  }

  /** Of 128 active entries the unsigned test refuses nothing, whatever is asked for. */
  lemma FullNotRefused(d: seq<Entry>, maxc: int, length: nat)
    requires |d| == DIR_ENTRIES && (forall k | 0 <= k < |d| :: Active(d[k])) && 0 < maxc < 8 * DIR_ENTRIES
    ensures !Refused(d, maxc, length)
  {
    CountsActive(d);
    hide ActiveCount;
  }

  lemma {:induction false} SomeFree(d: seq<Entry>, j: nat, c: nat, maxc: int)
    requires j <= c < maxc <= 65536 && !InUse(d, c)
    ensures |FreeFrom(d, j, maxc)| > 0
    decreases c - j
  {
    hide InUse;
    if j < c {
      SomeFree(d, j + 1, c, maxc);
    }
  }

  lemma NameIsFree()
    ensures NameFree(FullDir(), FileId(RTrim(NEW_NAME), RTrim(NEW_EXT)))
  {
    hide RTrim;
    forall k | 0 <= k < DIR_ENTRIES ensures IdOf(FullDir()[k]) != FileId(RTrim(NEW_NAME), RTrim(NEW_EXT)) {
      FirstStays(FullEntry(k).name);
      FirstStays(NEW_NAME);
    }
  }

  lemma {:induction false} FirstStays(s: seq<Byte>)
    requires s != [] && !IsSpace(s[0])
    ensures RTrim(s) != [] && RTrim(s)[0] == s[0]
  {
    if |s| > 1 && IsSpace(s[|s| - 1]) {
      FirstStays(s[..|s| - 1]);
    }
  }

  /** The save is granted, one byte would fit the last extent's rule, and yet nothing reads back. */
  method FullDirectory() returns (ok: bool, back: seq<Byte>)
    ensures LastNotFull(1) && ok && back == []
  {
    DirIsFull();
    NameIsFree();
    hide FullDisk, RTrim, FullEntry, FullDir, Dir, MaxCluster, Refused, FreeFrom, UsedFrom, FileAt, ReadsBack;
    assert forall k | 0 <= k < DIR_ENTRIES :: Active(FullDir()[k]) by { AllActive(); }
    var fs := new FilesystemImage.FromData(FullDisk());
    FullIsValid();
    FullGranted();
    ok := fs.SaveFile(NEW_NAME, NEW_EXT, [1]);
    back := fs.ReadFile(FileId(RTrim(NEW_NAME), RTrim(NEW_EXT)));
  }

  lemma AllActive()
    ensures forall k | 0 <= k < DIR_ENTRIES :: Active(FullDir()[k])
  {
  }

  lemma FullIsValid()
    ensures DirOk(Dir(FullDisk()), MaxCluster(FullDisk()))
  {
    DirIsFull();
    hide Dir, MaxCluster, FullDisk;
  }

  lemma FullGranted()
    ensures !Refused(FullDir(), 380, 1) && FreeClusters(FullDir(), 380) == |FreeFrom(FullDir(), 2, 380)| > 0
    ensures !ReadsBack(FullDir(), 1)
  {
    AllActive();
    FullNotRefused(FullDir(), 380, 1);
    NoneFree(FullDir(), DIR_ENTRIES);
    assert !InUse(FullDir(), 200);
    SomeFree(FullDir(), 2, 200, 380);
    hide FullDir, Refused, UsedFrom, FreeFrom, FreeBefore;
    FreeCount(FullDir(), 2, 380);
  }
}
