/** class FilesystemImage of src/fsimage.cpp. */
module FsClass {
  import opened Words
  import opened FsLayout
  import opened FsImage

  lemma FreshEntries(b: Image)
    requires forall i | 0 <= i < |b| :: b[i] == FILLER
    ensures DirOk(Dir(b), MaxCluster(b)) && forall k | 0 <= k < DIR_ENTRIES :: !Active(Dir(b)[k])
  {
    forall k | 0 <= k < DIR_ENTRIES ensures !Active(Dir(b)[k]) {
      assert Dir(b)[k] == EntryAt(b, k);
    }
  }

  lemma FreeFromSkips(d: seq<Entry>, c: nat, maxc: int)
    requires maxc <= 65536 && c < maxc
    ensures FreeFrom(d, c, maxc) == (if InUse(d, c) then [] else [c]) + FreeFrom(d, c + 1, maxc)
  {
    hide InUse;
  }

  /** The search has collected the free clusters below i. */
  ghost predicate SearchedTo(d: seq<Entry>, maxc: int, chain: seq<Word>, i: nat)
  {
    0 <= maxc <= 65536 && FreeFrom(d, 2, maxc) == chain + FreeFrom(d, i, maxc)
  }

  lemma SearchStarts(d: seq<Entry>, maxc: int)
    requires 0 <= maxc <= 65536
    ensures SearchedTo(d, maxc, [], 2)
  {
    hide FreeFrom;
  }

  lemma SearchMore(d: seq<Entry>, maxc: int, chain: seq<Word>, i: nat)
    requires SearchedTo(d, maxc, chain, i) && i < maxc
    ensures SearchedTo(d, maxc, if InUse(d, i) then chain else chain + [i], i + 1)
  {
    hide FreeFrom, InUse;
    FreeFromSkips(d, i, maxc);
  }

  /** When the search may stop. */
  lemma AvailableIs(d: seq<Entry>, maxc: int, length: nat, chain: seq<Word>, i: nat)
    requires 0 <= maxc <= 65536
    requires if Refused(d, maxc, length) then chain == []
             else SearchedTo(d, maxc, chain, i)
                  && (|chain| == length > 0 || (i >= maxc && (length > 0 ==> |chain| < length)))
    ensures Available(d, maxc, length) == chain
  {
    hide ActiveCount, InUse;
    if !Refused(d, maxc, length) && i >= maxc {
      assert FreeFrom(d, i, maxc) == [];
    }
  }

  // ---- how many clusters are free ----

  ghost function FatSet(f: seq<Word>): (s: set<Word>)
    ensures |s| <= |f|
    ensures forall c :: c in s <==> c in f
  {
    if f == [] then {} else {f[0]} + FatSet(f[1..])
  }

  ghost function UsedSet(d: seq<Entry>): (s: set<Word>)
    ensures |s| <= 8 * ActiveCount(d)
    ensures forall c: Word :: c in s <==> InUse(d, c)
  {
    hide ActiveCount, InUse;
    assert d != [] ==> ActiveCount(d) == ActiveCount(d[..|d| - 1]) + if Active(d[|d| - 1]) then 1 else 0 by {
      CountLast(d);
    }
    assert d == [] ==> ActiveCount(d) == 0 by { CountLast(d); }
    assert forall c: Word ::
        InUse(d, c) <==> d != [] && (InUse(d[..|d| - 1], c) || (Active(d[|d| - 1]) && c in d[|d| - 1].fat)) by {
      forall c: Word
        ensures InUse(d, c) <==> d != [] && (InUse(d[..|d| - 1], c) || (Active(d[|d| - 1]) && c in d[|d| - 1].fat))
      {
        InUseLast(d, c);
      }
    }
    if d == [] then {}
    else if Active(d[|d| - 1]) then UsedSet(d[..|d| - 1]) + FatSet(d[|d| - 1].fat)
    else UsedSet(d[..|d| - 1])
  }

  lemma CountLast(d: seq<Entry>)
    ensures ActiveCount(d) == if d == [] then 0 else ActiveCount(d[..|d| - 1]) + if Active(d[|d| - 1]) then 1 else 0
  {
  }

  lemma InUseLast(d: seq<Entry>, c: Word)
    ensures InUse(d, c) <==> d != [] && (InUse(d[..|d| - 1], c) || (Active(d[|d| - 1]) && c in d[|d| - 1].fat))
  {
    if d != [] {
      var p, e := d[..|d| - 1], d[|d| - 1];
      if InUse(p, c) {
        var k, i :| 0 <= k < |p| && Active(p[k]) && 0 <= i < 8 && p[k].fat[i] == c;
        assert d[k] == p[k];
      }
      if InUse(d, c) {
        var k, i :| 0 <= k < |d| && Active(d[k]) && 0 <= i < 8 && d[k].fat[i] == c;
        if k < |p| {
          assert p[k] == d[k];
        }
      }
    }
  }

  /** The clusters from c on that some active entry refers to. */
  ghost function UsedFrom(d: seq<Entry>, c: nat, maxc: int): set<int>
  {
    set x | c <= x < maxc && InUse(d, x)
  }

  lemma UsedFromStep(d: seq<Entry>, c: nat, maxc: int)
    requires c < maxc
    ensures UsedFrom(d, c, maxc) == UsedFrom(d, c + 1, maxc) + if InUse(d, c) then {c} else {}
    ensures |UsedFrom(d, c, maxc)| == |UsedFrom(d, c + 1, maxc)| + if InUse(d, c) then 1 else 0
  {
    hide InUse;
    assert UsedFrom(d, c, maxc) == UsedFrom(d, c + 1, maxc) + if InUse(d, c) then {c} else {};
  }

  /** What is not in use is free: an exact count. */
  lemma {:induction false} FreeCount(d: seq<Entry>, c: nat, maxc: int)
    requires c <= maxc <= 65536
    ensures |FreeFrom(d, c, maxc)| == maxc - c - |UsedFrom(d, c, maxc)|
    decreases maxc - c
  {
    hide InUse, UsedFrom;
    if c < maxc {
      FreeFromSkips(d, c, maxc);
      UsedFromStep(d, c, maxc);
      FreeCount(d, c + 1, maxc);
    } else {
      assert UsedFrom(d, c, maxc) == {} by { NoneUsed(d, c, maxc); }
    }
  }

  lemma NoneUsed(d: seq<Entry>, c: nat, maxc: int)
    requires c >= maxc
    ensures UsedFrom(d, c, maxc) == {}
  {
  }

  /** Data clusters that no active entry refers to. */
  ghost function FreeClusters(d: seq<Entry>, maxc: int): int
  {
    if maxc < 2 then 0 else maxc - 2 - |UsedFrom(d, 2, maxc)|
  }

  /** A request is refused, finds nothing free, or finds enough. */
  ghost predicate Allocatable(d: seq<Entry>, maxc: int, length: nat)
  {
    Refused(d, maxc, length) || FreeClusters(d, maxc) == 0 || length <= FreeClusters(d, maxc)
  }

  /** How long the returned chain is, for every directory; the allocator tests 8 * ActiveCount against all
      clusters, the two of the directory included, so a granted chain has the requested length exactly when
      that many clusters are free. */
  lemma ChainExact(d: seq<Entry>, maxc: int, length: nat)
    requires 0 <= maxc <= 65536
    ensures |Available(d, maxc, length)| ==
              if Refused(d, maxc, length) then 0
              else if 1 <= length <= FreeClusters(d, maxc) then length else FreeClusters(d, maxc)
    ensures !Refused(d, maxc, length) && length > 0 ==>
              (|Available(d, maxc, length)| == length <==> length <= FreeClusters(d, maxc))
    ensures Available(d, maxc, length) == [] || |Available(d, maxc, length)| >= length <==> Allocatable(d, maxc, length)
  {
    hide ActiveCount, InUse, UsedFrom, FreeFrom, Refused;
    assert |FreeFrom(d, 2, maxc)| == FreeClusters(d, maxc) by {
      if maxc >= 2 {
        FreeCount(d, 2, maxc);
      } else {
        NothingFree(d, maxc);
      }
    }
  }

  lemma FreeIsNat(d: seq<Entry>, maxc: int)
    requires 0 <= maxc <= 65536
    ensures FreeClusters(d, maxc) >= 0
  {
    hide UsedFrom, FreeFrom;
    if maxc >= 2 {
      FreeCount(d, 2, maxc);
    }
  }

  lemma NothingFree(d: seq<Entry>, maxc: int)
    requires maxc < 2
    ensures FreeFrom(d, 2, maxc) == []
  {
  }

  /** Entries hold eight numbers each, so with the two directory clusters counted in the test is safe. */
  lemma ChainLongEnough(d: seq<Entry>, maxc: int, length: nat)
    requires 2 <= maxc <= 65536 && 8 * ActiveCount(d) + length + 2 <= maxc
    ensures length <= FreeClusters(d, maxc) && !Refused(d, maxc, length)
  {
    hide ActiveCount, InUse;
    var used := UsedFrom(d, 2, maxc);
    SubsetSize(used, UsedSet(d));
  }

  lemma SubsetSize(a: set<int>, b: set<int>)
    requires a <= b
    ensures |a| <= |b|
  {
    assert b == a + (b - a);
  }

  /** On an empty directory asking for one or two clusters more than there are is granted with a chain
      that is too short. */
  lemma ShortChainOnEmptyDisk(d: seq<Entry>, maxc: int, length: nat)
    requires 2 <= maxc <= 65536 && 0 < length && forall k | 0 <= k < |d| :: !Active(d[k])
    ensures |Available(d, maxc, length)| == if length > maxc then 0 else Min(length, maxc - 2)
  {
    NoneActive(d);
    ChainExact(d, maxc, length);
    hide UsedFrom, Available, ActiveCount;
    assert UsedFrom(d, 2, maxc) == {} by { AllFree(d, maxc); }
  }

  lemma {:induction false} NoneActive(d: seq<Entry>)
    requires forall k | 0 <= k < |d| :: !Active(d[k])
    ensures ActiveCount(d) == 0
  {
    if d != [] {
      NoneActive(d[..|d| - 1]);
    }
  }

  lemma AllFree(d: seq<Entry>, maxc: int)
    requires forall k | 0 <= k < |d| :: !Active(d[k])
    ensures UsedFrom(d, 2, maxc) == {}
  {
  }

  lemma TwoHalves(b: Image, c: nat, d1: seq<Byte>, d2: seq<Byte>)
    requires 2 <= c < MaxCluster(b) && |d1| == |d2| == 1024
    ensures ClusterAt(c) + 2048 <= |b|
    ensures Cluster(Splice(Splice(b, ClusterAt(c), d1), ClusterAt(c) + 1024, d2), c) == d1 + d2
  {
    ClusterInside(b, c);
    var p := ClusterAt(c);
    var b1 := Splice(b, p, d1);
    var b2 := Splice(b1, p + 1024, d2);
    SpliceHere(b, p, d1);
    SpliceElsewhere(b1, p + 1024, d2, p, 1024);
    SpliceHere(b1, p + 1024, d2);
    assert b2[p..p + 2048] == b2[p..p + 1024] + b2[p + 1024..p + 2048];
  }

  // ---- what one step of allocate_file changes ----

  /** The directory when the entries before h have been dealt with. */
  ghost function Partly(d: seq<Entry>, f: NewFile, h: nat): seq<Entry>
    requires |d| == DIR_ENTRIES && |f.chain| >= ClustersFor(f.n) && h <= |d|
  {
    NewDir(d, f)[..h] + d[h..]
  }

  lemma PartlyStep(d: seq<Entry>, f: NewFile, h: nat)
    requires |d| == DIR_ENTRIES && |f.chain| >= ClustersFor(f.n) && h < |d|
    ensures Partly(d, f, h + 1) == Partly(d, f, h)[h := NewEntry(d, f, h)]
    ensures Partly(d, f, h)[h] == d[h]
  {
    hide NewEntry;
    assert NewDir(d, f)[..h + 1] == NewDir(d, f)[..h] + [NewEntry(d, f, h)];
  }

  /** Nothing is left to do once the extents are placed, or at the end of the directory. */
  lemma PartlyDone(d: seq<Entry>, f: NewFile, h: nat)
    requires |d| == DIR_ENTRIES && |f.chain| >= ClustersFor(f.n) && h <= |d|
    requires h == |d| || FreeBefore(d, h) >= ExtentsFor(f.n)
    ensures Partly(d, f, h) == NewDir(d, f)
  {
    hide ExtentEntry, FreeBefore, ExtentsFor;
    forall k | h <= k < |d| ensures NewDir(d, f)[k] == d[k] {
      FreeGrows(d, h, k);
    }
  }

  ghost predicate SameClusters(b: Image, b': Image)
  {
    |b'| == |b| && forall x: nat | 2 <= x < MaxCluster(b) :: Cluster(b', x) == Cluster(b, x)
  }

  lemma ReflSame(b: Image)
    ensures SameClusters(b, b)
  {
  }

  lemma PartlyStart(d: seq<Entry>, f: NewFile)
    requires |d| == DIR_ENTRIES && |f.chain| >= ClustersFor(f.n)
    ensures Partly(d, f, 0) == d
  {
    hide NewDir;
  }

  lemma DirEntry(b: Image, k: nat)
    requires k < DIR_ENTRIES
    ensures Dir(b)[k] == EntryAt(b, k)
  {
    hide EntryAt;
  }

  /** One directory write. */
  lemma PutStep(b0: Image, b: Image, d: seq<Entry>, f: NewFile, h: nat)
    requires |d| == DIR_ENTRIES && |f.chain| >= ClustersFor(f.n) && h < |d|
    requires Dir(b) == Partly(d, f, h) && SameClusters(b0, b)
    ensures var b' := PutEntry(b, h, NewEntry(d, f, h)); Dir(b') == Partly(d, f, h + 1) && SameClusters(b0, b')
  {
    hide Dir, PutEntry, NewEntry, Partly, Cluster;
    var e := NewEntry(d, f, h);
    PartlyStep(d, f, h);
    DirPut(b, h, e);
    forall x: nat | 2 <= x < MaxCluster(b0) ensures Cluster(PutEntry(b, h, e), x) == Cluster(b0, x) {
      PutEntryCluster(b, h, e, x);
    }
  }

  // ---- what one step of the data loop changes ----

  /** 1024 bytes of the content from 1024 * half on, filled up. */
  function SectorOf(content: seq<Byte>, half: nat): (r: seq<Byte>)
    ensures |r| == SECTOR_SIZE
  {
    seq(SECTOR_SIZE, i requires 0 <= i < SECTOR_SIZE =>
      if 1024 * half + i < |content| then content[1024 * half + i] else FILLER)
  }

  lemma SectorIs(content: seq<Byte>, half: nat, src: nat, tocopy: nat)
    requires src == Min(|content|, 1024 * half) && tocopy == Min(1024, |content| - src)
    ensures content[src..src + tocopy] + Fill(1024 - tocopy) == SectorOf(content, half)
  {
  }

  lemma ClusterIs(content: seq<Byte>, k: nat)
    requires k < ClustersFor(|content|)
    ensures SectorOf(content, 2 * k) + SectorOf(content, 2 * k + 1) == Whole(content)[2048 * k..2048 * k + 2048]
  {
  }

  /** The first k clusters of the chain are written and nothing else. */
  ghost predicate Written(b0: Image, b: Image, chain: seq<Word>, content: seq<Byte>, k: nat)
    requires k <= |chain| && forall i | 0 <= i < |chain| :: 2 <= chain[i] < MaxCluster(b0)
  {
    && |b| == |b0| && MaxCluster(b) == MaxCluster(b0) && Dir(b) == Dir(b0)
    && (forall i | 0 <= i < k :: Cluster(b, chain[i]) == SectorOf(content, 2 * i) + SectorOf(content, 2 * i + 1))
    && (forall x: nat | 2 <= x < MaxCluster(b0) && x !in chain[..k] :: Cluster(b, x) == Cluster(b0, x))
  }

  lemma NothingWritten(b: Image, chain: seq<Word>, content: seq<Byte>)
    requires forall i | 0 <= i < |chain| :: 2 <= chain[i] < MaxCluster(b)
    ensures Written(b, b, chain, content, 0)
  {
    hide Dir, Cluster, SectorOf;
  }

  lemma SameCount(b: Image, b': Image)
    ensures |b| == |b'| ==> MaxCluster(b) == MaxCluster(b')
  {
  }

  lemma WrittenStep(b0: Image, b: Image, chain: seq<Word>, content: seq<Byte>, k: nat)
    requires k < |chain| && forall i | 0 <= i < |chain| :: 2 <= chain[i] < MaxCluster(b0)
    requires forall i, j | 0 <= i < j < |chain| :: chain[i] < chain[j]
    requires Written(b0, b, chain, content, k)
    ensures var p := ClusterAt(chain[k]);
            && p + 2048 <= |b|
            && Written(b0, Splice(Splice(b, p, SectorOf(content, 2 * k)), p + 1024, SectorOf(content, 2 * k + 1)),
                       chain, content, k + 1)
  {
    hide Splice, SectorOf, Dir, Cluster;
    var c, d1, d2 := chain[k], SectorOf(content, 2 * k), SectorOf(content, 2 * k + 1);
    ClusterInside(b, c);
    TwoHalves(b, c, d1, d2);
    WriteCluster(b, c, 0, d1);
    var b1 := Splice(b, ClusterAt(c), d1);
    WriteCluster(b1, c, 1024, d2);
    var b2 := Splice(b1, ClusterAt(c) + 1024, d2);
    assert chain[..k + 1] == chain[..k] + [c];
    forall i | 0 <= i < k + 1
      ensures Cluster(b2, chain[i]) == SectorOf(content, 2 * i) + SectorOf(content, 2 * i + 1)
    {
      if i < k {
        assert chain[i] < c;
      }
    }
  }

  lemma WrittenHolds(b0: Image, b: Image, chain: seq<Word>, content: seq<Byte>, k: nat)
    requires k <= |chain| && forall i | 0 <= i < |chain| :: 2 <= chain[i] < MaxCluster(b0)
    requires Written(b0, b, chain, content, k) && k >= ClustersFor(|content|)
    ensures FatOk(chain, MaxCluster(b)) && Holds(b, chain, content) && Dir(b) == Dir(b0)
            && MaxCluster(b) == MaxCluster(b0)
    ensures forall x: nat | 2 <= x < MaxCluster(b0) && x !in chain :: Cluster(b, x) == Cluster(b0, x)
  {
    hide SectorOf, Whole, Dir, Cluster;
    forall i | 0 <= i < ClustersFor(|content|)
      ensures Cluster(b, chain[i]) == Whole(content)[2048 * i..2048 * i + 2048]
    {
      ClusterIs(content, i);
    }
    assert forall x | x in chain[..k] :: x in chain;
  }

  // ---- reading ----

  lemma SliceOfSlice(b: seq<Byte>, at: nat, n: nat, t: nat)
    requires t <= n && at + n <= |b|
    ensures b[at..at + t] == b[at..at + n][..t]
  {
  }

  lemma ClipMore(data: seq<Byte>, sector: seq<Byte>, size: nat, ptr: nat, tocopy: nat)
    requires ptr == Min(|data|, size) && tocopy == Min(|sector|, size - ptr)
    ensures Clip(data + sector, size) == Splice(Clip(data, size), ptr, sector[..tocopy])
  {
  }

  lemma ClipNothing(size: nat)
    ensures Clip([], size) == seq(size, _ => 0)
  {
  }

  lemma ChainStep(b: Image, chain: seq<Word>, k: nat)
    requires FatOk(chain, MaxCluster(b)) && k < |chain|
    ensures chain[k] != 0 ==> ChainData(b, chain[k..]) == Cluster(b, chain[k]) + ChainData(b, chain[k + 1..])
    ensures chain[k] != 0 ==> 2 <= chain[k] < MaxCluster(b)
  {
    hide Cluster, MaxCluster;
    assert chain[k..][1..] == chain[k + 1..];
  }

  lemma ChainEnd(b: Image, chain: seq<Word>, k: nat)
    requires FatOk(chain, MaxCluster(b)) && k <= |chain| && (k == |chain| || chain[k] == 0)
    ensures ChainData(b, chain[k..]) == []
  {
  }

  lemma Halves(b: Image, c: nat)
    requires c < MaxCluster(b)
    ensures ClusterAt(c) + 2048 < |b|
    ensures b[ClusterAt(c)..ClusterAt(c) + 1024] + b[ClusterAt(c) + 1024..ClusterAt(c) + 2048] == Cluster(b, c)
  {
    ClusterInside(b, c);
  }

  lemma HalfSector(b: Image, c: nat, i: nat)
    requires c < MaxCluster(b) && i < 2
    ensures var at := MapSector(b, ClusterToThs(2 * c + i)); at == ClusterAt(c) + 1024 * i && at + 1024 < |b|
  {
    hide MapSector, ClusterToThs, MaxCluster;
    ClusterInside(b, c);
    SectorIsLinear(b, 2 * c + i);
  }

  class FilesystemImage {
    var bytes: Image

    ghost predicate Valid()
      reads this
    {
      DirOk(Dir(bytes), MaxCluster(bytes))
    }

    /** A disk with given contents. */
    constructor FromData(data: Image)
      ensures bytes == data
    {
      bytes := data;
    }

    /** An empty disk. */
    constructor (size: int)
      requires DATA_RESERVED <= size < DATA_RESERVED + 65536 * 2048
      ensures Valid() && |bytes| == size && forall k | 0 <= k < DIR_ENTRIES :: !Active(Dir(bytes)[k])
    {
      bytes := seq(size, _ => FILLER);
      new;
      FreshEntries(bytes);
    }

    method MarkFat(used0: seq<bool>, fat: Fat) returns (used: seq<bool>)
      requires FatOk(fat, |used0|) && |used0| > 0
      ensures |used| == |used0| && forall c | 0 <= c < |used| :: used[c] <==> used0[c] || c in fat
    {
      used := used0;
      for i := 0 to 8
        invariant |used| == |used0|
        invariant forall c | 0 <= c < |used| :: used[c] <==> used0[c] || c in fat[..i]
      {
        assert fat[..i + 1] == fat[..i] + [fat[i]];
        used := used[fat[i] := true];
      }
      assert fat[..8] == fat;
    }

    /** Marks the clusters of all active entries; counts eight per active entry. */
    method MarkUsed() returns (used: seq<bool>, usedcount: nat)
      requires Valid() && MaxCluster(bytes) > 0
      ensures |used| == MaxCluster(bytes) && usedcount == 8 * ActiveCount(Dir(bytes))
      ensures forall c | 0 <= c < |used| :: used[c] <==> InUse(Dir(bytes), c)
    {
      hide InUse, Dir, EntryAt, ActiveCount, FatOk, MaxCluster;
      ghost var d := Dir(bytes);
      var maxc := MaxCluster(bytes);
      used, usedcount := seq(maxc, _ => false), 0;
      assert usedcount == 8 * ActiveCount(d[..0]) by { CountLast(d[..0]); }
      forall c | 0 <= c < maxc ensures !InUse(d[..0], c) {
        InUseLast(d[..0], c);
      }
      for k := 0 to DIR_ENTRIES
        invariant |used| == maxc && usedcount == 8 * ActiveCount(d[..k])
        invariant forall c | 0 <= c < maxc :: used[c] <==> InUse(d[..k], c)
      {
        DirEntry(bytes, k);
        assert d[..k + 1][..k] == d[..k];
        CountLast(d[..k + 1]);
        forall c | 0 <= c < maxc
          ensures InUse(d[..k + 1], c) <==> InUse(d[..k], c) || (Active(d[k]) && c in d[k].fat)
        {
          InUseLast(d[..k + 1], c);
        }
        var e := EntryAt(bytes, k);
        if Active(e) {
          used := MarkFat(used, e.fat);
          usedcount := usedcount + 8;
        }
      }
      assert d[..DIR_ENTRIES] == d;
    }

    method BuildAvailableChain(length: nat) returns (chain: seq<Word>)
      requires Valid()
      ensures chain == Available(Dir(bytes), MaxCluster(bytes), length)
    {
      hide InUse, MaxCluster, Dir, ActiveCount, FreeFrom, Available, DirOk, SearchedTo;
      var maxc: int := MaxCluster(bytes);
      ghost var d := Dir(bytes);
      if maxc == 0 {
        AvailableIs(d, maxc, length, [], 2);
        return [];
      }
      var used, usedcount := MarkUsed();
      if usedcount <= maxc && maxc - usedcount < length {
        AvailableIs(d, maxc, length, [], 2);
        return [];
      }
      chain := [];
      SearchStarts(d, maxc);
      var i := 2;
      while i < maxc
        invariant 2 <= i && (i <= maxc || i == 2)
        invariant SearchedTo(d, maxc, chain, i)
        invariant length > 0 ==> |chain| < length
      {
        SearchMore(d, maxc, chain, i);
        var i0: nat := i;
        i := i + 1;
        if !used[i0] {
          chain := chain + [i0];
          if |chain| == length {
            break;
          }
        }
      }
      AvailableIs(d, maxc, length, chain, i);
    }

    /** The eight cluster numbers of one extent. */
    method FillFat(f: NewFile, extent: nat, remaining0: int, chainIndex0: nat)
      returns (fat: Fat, remaining: int, chainIndex: nat)
      requires |f.chain| >= ClustersFor(f.n)
      requires 0 < remaining0 == f.n - 16384 * extent && chainIndex0 == 8 * extent
      ensures fat == FatOf(f.n, f.chain, extent)
      ensures if f.n > 16384 * (extent + 1) then remaining == f.n - 16384 * (extent + 1)
              && chainIndex == 8 * (extent + 1)
              else remaining <= 0
    {
      remaining, chainIndex := remaining0, chainIndex0;
      var row: seq<Word> := [];
      for i := 0 to 8
        invariant row == FatOf(f.n, f.chain, extent)[..i]
        invariant if f.n - 16384 * extent - 2048 * i > 0
                  then remaining == f.n - 16384 * extent - 2048 * i && chainIndex == 8 * extent + i
                  else remaining <= 0
      {
        row := row + [if remaining > 0 then f.chain[chainIndex] else 0];
        if remaining > 0 {
          remaining := remaining - 2048;
          chainIndex := chainIndex + 1;
        }
      }
      fat := row;
    }

    method AllocateFile(f: NewFile)
      requires |f.chain| >= ClustersFor(f.n)
      modifies this
      ensures |bytes| == |old(bytes)| && Dir(bytes) == NewDir(Dir(old(bytes)), f)
      ensures SameClusters(old(bytes), bytes)
    {
      hide Dir, Cluster, EntryAt, PutEntry, FatOf, Partly, MaxCluster, SameClusters, NewDir;
      ghost var b0 := bytes;
      ghost var d := Dir(bytes);
      var remaining: int, chainIndex: nat, extent: nat := f.n, 0, 0;
      assert SameClusters(b0, b0) by { ReflSame(b0); }
      assert Partly(d, f, 0) == d by { PartlyStart(d, f); }
      var h: nat := 0;
      while h < DIR_ENTRIES && remaining > 0
        invariant h <= DIR_ENTRIES && |bytes| == |b0|
        invariant Dir(bytes) == Partly(d, f, h) && SameClusters(b0, bytes)
        invariant if remaining > 0 then extent == FreeBefore(d, h) && remaining == f.n - 16384 * extent
                  && chainIndex == 8 * extent
                  else FreeBefore(d, h) >= ExtentsFor(f.n)
      {
        assert Dir(bytes)[h] == d[h] && EntryAt(bytes, h) == d[h] by { PartlyStep(d, f, h); DirEntry(bytes, h); }
        if !Active(EntryAt(bytes, h)) {
          assert extent < ExtentsFor(f.n);
          var records := Min(0x80, (remaining + 127) / 128);
          var fat;
          fat, remaining, chainIndex := FillFat(f, extent, remaining, chainIndex);
          assert NewEntry(d, f, h) == Entry(0, f.name, f.ext, extent, 0, 0, records, fat);
          PutStep(b0, bytes, d, f, h);
          bytes := PutEntry(bytes, h, Entry(0, f.name, f.ext, extent, 0, 0, records, fat));
          extent := extent + 1;
        } else {
          assert NewEntry(d, f, h) == d[h];
          PartlyStep(d, f, h);
        }
        h := h + 1;
      }
      PartlyDone(d, f, h);
    }

    /** The content goes into the clusters of the chain. */
    method WriteData(content: seq<Byte>, chain: seq<Word>)
      requires forall i | 0 <= i < |chain| :: 2 <= chain[i] < MaxCluster(bytes)
      requires forall i, j | 0 <= i < j < |chain| :: chain[i] < chain[j]
      requires |chain| >= ClustersFor(|content|)
      modifies this
      ensures |bytes| == |old(bytes)| && Dir(bytes) == Dir(old(bytes))
      ensures FatOk(chain, MaxCluster(bytes)) && Holds(bytes, chain, content)
      ensures forall x: nat | 2 <= x < MaxCluster(bytes) && x !in chain :: Cluster(bytes, x) == Cluster(old(bytes), x)
    {
      hide Dir, Cluster, Holds, SectorOf, MapSector, ClusterToThs, Splice, MaxCluster, Written;
      ghost var b0 := bytes;
      NothingWritten(b0, chain, content);
      var remaining := |content|;
      var k := 0;
      while k < |chain|
        invariant k <= |chain| && |bytes| == |b0|
        invariant Written(b0, bytes, chain, content, k)
        invariant remaining == |content| - Min(|content|, 2048 * k)
        invariant k > 0 ==> remaining > 0
      {
        ghost var was := bytes;
        var c: nat := chain[k];
        ghost var p := ClusterAt(c);
        WrittenStep(b0, bytes, chain, content, k);
        SameCount(b0, bytes);
        for i := 0 to 2
          invariant |bytes| == |b0| && remaining == |content| - Min(|content|, 2048 * k + 1024 * i)
          invariant i == 0 ==> bytes == was
          invariant i == 1 ==> bytes == Splice(was, p, SectorOf(content, 2 * k))
          invariant i == 2 ==>
                      bytes == Splice(Splice(was, p, SectorOf(content, 2 * k)), p + 1024, SectorOf(content, 2 * k + 1))
        {
          var at := MapSector(bytes, ClusterToThs(2 * c + i));
          SameCount(b0, bytes);
          HalfSector(bytes, c, i);
          if at == -1 {
            break;
          }
          var tocopy := Min(SECTOR_SIZE, remaining);
          var src := |content| - remaining;
          SectorIs(content, 2 * k + i, src, tocopy);
          bytes := Splice(bytes, at, content[src..src + tocopy] + Fill(SECTOR_SIZE - tocopy));
          remaining := remaining - tocopy;
        }
        k := k + 1;
        if remaining == 0 {
          break;
        }
      }
      WrittenHolds(b0, bytes, chain, content, k);
    }

    /** save_file: `name` and `ext` are the name the directory gets. */
    method SaveFile(name: Name, ext: Ext, content: seq<Byte>) returns (ok: bool)
      requires Valid()
      requires Allocatable(Dir(bytes), MaxCluster(bytes), ClustersFor(|content|))
      modifies this
      ensures |bytes| == |old(bytes)| && Valid()
      ensures ok <==> !Refused(Dir(old(bytes)), MaxCluster(old(bytes)), ClustersFor(|content|))
                      && FreeClusters(Dir(old(bytes)), MaxCluster(old(bytes))) > 0
      ensures !ok ==> bytes == old(bytes)
      ensures forall id | id != FileId(RTrim(name), RTrim(ext)) :: FileAt(bytes, id) == FileAt(old(bytes), id)
      ensures ok && NameFree(Dir(old(bytes)), FileId(RTrim(name), RTrim(ext))) ==>
                FileAt(bytes, FileId(RTrim(name), RTrim(ext)))
                == if ReadsBack(Dir(old(bytes)), |content|) then content + Fill(PaddedSize(|content|) - |content|)
                   else []
    {
      hide Dir, MaxCluster, Available, ExtentsFor, RTrim, NewDir, DirOk, FileAt, Cluster, Holds, LastNotFull,
        PaddedSize, ReadsBack, NameFree, InUse, FreeBefore, FreeClusters, Refused, Allocatable;
      ghost var b0 := bytes;
      ChainExact(Dir(bytes), MaxCluster(bytes), ClustersFor(|content|));
      FreeIsNat(Dir(bytes), MaxCluster(bytes));
      var chain := BuildAvailableChain((|content| + 2047) / 2048);
      if |chain| == 0 {
        return false;
      }
      var f := NewFile(name, ext, |content|, chain);
      AllocateFile(f);
      ghost var b1 := bytes;
      SizeDecides(b0, b1);
      WriteData(content, chain);
      SizeDecides(b1, bytes);
      assert Saved(b0, bytes, f, content);
      NewDirOk(Dir(b0), f, MaxCluster(b0));
      forall id | id != NewId(f) ensures FileAt(bytes, id) == FileAt(b0, id) {
        SaveIsolates(b0, bytes, f, content, id);
      }
      if NameFree(Dir(b0), NewId(f)) {
        SaveRoundTrip(b0, bytes, f, content);
      }
      ok := true;
    }

    method LoadDirent(id: FileId) returns (e: Dirent)
      ensures e == Load(Dir(bytes), id)
    {
      hide Dir, EntryAt, IdOf, Load, Active;
      ghost var d := Dir(bytes);
      assert d[0..] == d;
      e := Dirent([], 0);
      for h := 0 to DIR_ENTRIES
        invariant e.size == 0
        invariant Load(d, id) == Dirent(e.chain + Load(d[h..], id).chain, Load(d[h..], id).size)
      {
        DirEntry(bytes, h);
        LoadStep(d, id, h);
        var x := EntryAt(bytes, h);
        if Active(x) && IdOf(x) == id {
          e := e.(chain := e.chain + x.fat);
          if x.records != 0x80 {
            e := e.(size := x.extent * 2048 * 8 + x.records * 128);
            return;
          }
        }
      }
      LoadEnd(d, id);
    }

    /** The two sectors of one cluster, as far as the file goes. */
    method ReadCluster(c: Word, size: nat, result0: seq<Byte>, ptr0: nat, remainder0: nat, ghost done: seq<Byte>)
      returns (result: seq<Byte>, resultptr: nat, remainder: nat)
      requires c < MaxCluster(bytes)
      requires result0 == Clip(done, size) && ptr0 == Min(|done|, size) && remainder0 == size - ptr0
      ensures var now := done + Cluster(bytes, c);
              result == Clip(now, size) && resultptr == Min(|now|, size) && remainder == size - resultptr
    {
      hide Clip, MapSector, ClusterToThs, Splice, MaxCluster, Cluster;
      result, resultptr, remainder := result0, ptr0, remainder0;
      ghost var p := ClusterAt(c);
      Halves(bytes, c);
      ghost var now := done;
      for i := 0 to 2
        invariant now == done + if i == 0 then [] else if i == 1 then bytes[p..p + 1024] else Cluster(bytes, c)
        invariant result == Clip(now, size) && resultptr == Min(|now|, size) && remainder == size - resultptr
      {
        var at := MapSector(bytes, ClusterToThs(2 * c + i));
        HalfSector(bytes, c, i);
        if at == -1 {
          break;
        }
        var tocopy := Min(SECTOR_SIZE, remainder);
        ghost var sector := bytes[at..at + 1024];
        ClipMore(now, sector, size, resultptr, tocopy);
        SliceOfSlice(bytes, at, 1024, tocopy);
        result := Splice(result, resultptr, bytes[at..at + tocopy]);
        resultptr := resultptr + tocopy;
        remainder := remainder - tocopy;
        now := now + sector;
      }
    }

    method ReadBytes(e: Dirent) returns (result: seq<Byte>)
      requires FatOk(e.chain, MaxCluster(bytes)) && e.size >= 0
      ensures result == Contents(bytes, e)
    {
      hide Clip, ChainData, Cluster, MapSector, ClusterToThs, Splice, MaxCluster;
      result := seq(e.size, _ => 0);
      var resultptr, remainder := 0, e.size;
      ghost var done: seq<Byte> := [];
      ghost var whole := ChainData(bytes, e.chain);
      assert result == Clip([], e.size) by { ClipNothing(e.size); }
      assert e.chain[0..] == e.chain;
      var k := 0;
      while k < |e.chain|
        invariant k <= |e.chain|
        invariant whole == done + ChainData(bytes, e.chain[k..])
        invariant result == Clip(done, e.size) && resultptr == Min(|done|, e.size) && remainder == e.size - resultptr
      {
        var c: int := e.chain[k];
        var clust := c * 2;
        ChainStep(bytes, e.chain, k);
        if clust < 2 {
          break;
        }
        result, resultptr, remainder := ReadCluster(e.chain[k], e.size, result, resultptr, remainder, done);
        done := done + Cluster(bytes, e.chain[k]);
        k := k + 1;
      }
      ChainEnd(bytes, e.chain, k);
      assert whole == done;
    }

    /** find_file and read_file. */
    method ReadFile(id: FileId) returns (r: seq<Byte>)
      requires Valid()
      ensures r == FileAt(bytes, id)
    {
      hide Dir, EntryAt, IdOf, Load, Contents, MaxCluster;
      var h: nat := 0;
      while h < DIR_ENTRIES && !(EntryAt(bytes, h).user == 0 && IdOf(EntryAt(bytes, h)) == id)
        invariant h <= DIR_ENTRIES
        invariant forall k | 0 <= k < h :: !(Dir(bytes)[k].user == 0 && IdOf(Dir(bytes)[k]) == id)
      {
        DirEntry(bytes, h);
        h := h + 1;
      }
      if h == DIR_ENTRIES {
        return [];
      }
      DirEntry(bytes, h);
      var e := LoadDirent(id);
      LoadOk(Dir(bytes), id, MaxCluster(bytes));
      if e.size != 0 {
        r := ReadBytes(e);
      } else {
        r := [];
      }
    }
  }
}
