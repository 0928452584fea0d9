/** Disk geometry and directory entries of the CP/M-style image (src/fsimage.h,
    src/fsimage.cpp): where sectors and clusters lie, and how 32-byte directory
    entries are laid out in the image bytes. */
module FsLayout {
  import opened Words

  const SECTOR_SIZE := 1024
  const CLUSTER_BYTES := 2048
  const DIR_START := 0xa000
  const DIR_ENTRIES := 128
  const DATA_RESERVED := 61440   // SECTORS_CYL * SECTOR_SIZE * SYSTEM_TRACKS
  const FILLER: Byte := 0xe5

  /** Images the block allocator can describe: room for the system tracks, clusters numbered by 16 bits. */
  type Image = s: seq<Byte> | DATA_RESERVED <= |s| < DATA_RESERVED + 65536 * 2048
    witness seq(DATA_RESERVED, _ => FILLER)

  function MaxCluster(b: Image): (n: int)
    ensures 0 <= n < 65536
  {
    (|b| - DATA_RESERVED) / CLUSTER_BYTES
  }

  // ---- geometry ----

  datatype Ths = Ths(track: int, head: int, sector: int)

  function ClusterToThs(cluster: nat): Ths
  {
    var track := 8 + cluster / 5;
    Ths(track / 2, track % 2, 1 + cluster % 5)
  }

  /** Byte offset of a sector, or -1 where map_sector returns end(). */
  function MapSector(b: Image, t: Ths): int
  {
    var offset := t.track * 10240 + t.head * 5120 + (t.sector - 1) * 1024;
    if offset + SECTOR_SIZE >= |b| then -1 else offset
  }

  /** Half-clusters are numbered linearly from the directory on. */
  lemma SectorIsLinear(b: Image, half: nat)
    ensures MapSector(b, ClusterToThs(half)) ==
            if DIR_START + 1024 * half + 1024 >= |b| then -1 else DIR_START + 1024 * half
  {
    var t := 8 + half / 5;
    assert t == 2 * (t / 2) + t % 2;
    assert half == 5 * (half / 5) + half % 5;
  }

  function ClusterAt(c: nat): int { DIR_START + CLUSTER_BYTES * c }

  /** Every cluster the allocator hands out lies inside the image, and its sectors can be mapped. */
  lemma ClusterInside(b: Image, c: nat)
    requires c < MaxCluster(b)
    ensures ClusterAt(c) + CLUSTER_BYTES < |b|
    ensures MapSector(b, ClusterToThs(2 * c)) == ClusterAt(c)
    ensures MapSector(b, ClusterToThs(2 * c + 1)) == ClusterAt(c) + SECTOR_SIZE
  {
    hide MapSector, ClusterToThs;
    SectorIsLinear(b, 2 * c);
    SectorIsLinear(b, 2 * c + 1);
  }

  function Cluster(b: Image, c: nat): (d: seq<Byte>)
    requires c < MaxCluster(b)
    ensures |d| == CLUSTER_BYTES
  {
    ClusterInside(b, c);
    b[ClusterAt(c)..ClusterAt(c) + CLUSTER_BYTES]
  }

  // ---- splicing ----

  function Splice(b: seq<Byte>, p: nat, d: seq<Byte>): (r: seq<Byte>)
    requires p + |d| <= |b|
    ensures |r| == |b|
  {
    b[..p] + d + b[p + |d|..]
  }

  lemma SpliceHere(b: seq<Byte>, p: nat, d: seq<Byte>)
    requires p + |d| <= |b|
    ensures Splice(b, p, d)[p..p + |d|] == d
  {
  }

  /** Bytes that the splice does not cover stay. */
  lemma SpliceElsewhere(b: seq<Byte>, p: nat, d: seq<Byte>, q: nat, n: nat)
    requires p + |d| <= |b| && q + n <= |b| && (q + n <= p || p + |d| <= q)
    ensures Splice(b, p, d)[q..q + n] == b[q..q + n]
  {
  }

  // ---- directory entries ----

  type Name = s: seq<Byte> | |s| == 8 witness [0, 0, 0, 0, 0, 0, 0, 0]
  type Ext = s: seq<Byte> | |s| == 3 witness [0, 0, 0]
  type Fat = s: seq<Word> | |s| == 8 witness [0, 0, 0, 0, 0, 0, 0, 0]

  datatype Entry = Entry(user: Byte, name: Name, ext: Ext, extent: Byte, unknown1: Byte, unknown2: Byte,
                         records: Byte, fat: Fat)

  function FatBytes(f: seq<Word>): (r: seq<Byte>)
    ensures |r| == 2 * |f|
  {
    if f == [] then [] else [Lo(f[0]), Hi(f[0])] + FatBytes(f[1..])
  }

  function FatWords(b: seq<Byte>): (r: seq<Word>)
    requires |b| % 2 == 0
    ensures |r| == |b| / 2
  {
    if b == [] then [] else [Pair(b[1], b[0])] + FatWords(b[2..])
  }

  lemma {:induction false} FatInverse(f: seq<Word>)
    ensures FatWords(FatBytes(f)) == f
  {
    if f != [] {
      FatInverse(f[1..]);
      assert FatBytes(f)[2..] == FatBytes(f[1..]);
    }
  }

  function EntryBytes(e: Entry): (r: seq<Byte>)
    ensures |r| == 32
  {
    [e.user] + e.name + e.ext + [e.extent, e.unknown1, e.unknown2, e.records] + FatBytes(e.fat)
  }

  function ParseEntry(d: seq<Byte>): Entry
    requires |d| == 32
  {
    Entry(d[0], d[1..9], d[9..12], d[12], d[13], d[14], d[15], FatWords(d[16..32]))
  }

  lemma EntryInverse(e: Entry)
    ensures ParseEntry(EntryBytes(e)) == e
  {
    hide FatBytes, FatWords;
    var d := EntryBytes(e);
    assert d[1..9] == e.name && d[9..12] == e.ext && d[16..32] == FatBytes(e.fat);
    FatInverse(e.fat);
  }

  function EntryPos(k: nat): int { DIR_START + 32 * k }

  function EntryAt(b: Image, k: nat): Entry
    requires k < DIR_ENTRIES
  {
    ParseEntry(b[EntryPos(k)..EntryPos(k) + 32])
  }

  function PutEntry(b: Image, k: nat, e: Entry): (r: Image)
    requires k < DIR_ENTRIES
    ensures |r| == |b|
  {
    Splice(b, EntryPos(k), EntryBytes(e))
  }

  lemma PutEntryAt(b: Image, k: nat, e: Entry, j: nat)
    requires k < DIR_ENTRIES && j < DIR_ENTRIES
    ensures EntryAt(PutEntry(b, k, e), j) == if j == k then e else EntryAt(b, j)
  {
    hide EntryBytes, ParseEntry, Splice;
    if j == k {
      SpliceHere(b, EntryPos(k), EntryBytes(e));
      EntryInverse(e);
    } else {
      SpliceElsewhere(b, EntryPos(k), EntryBytes(e), EntryPos(j), 32);
    }
  }

  /** Clusters from 2 on are clear of the directory. */
  lemma PutEntryCluster(b: Image, k: nat, e: Entry, c: nat)
    requires k < DIR_ENTRIES && 2 <= c < MaxCluster(b)
    ensures Cluster(PutEntry(b, k, e), c) == Cluster(b, c)
  {
    hide EntryBytes, Splice;
    ClusterInside(b, c);
    SpliceElsewhere(b, EntryPos(k), EntryBytes(e), ClusterAt(c), CLUSTER_BYTES);
  }

  function Dir(b: Image): (d: seq<Entry>)
    ensures |d| == DIR_ENTRIES
  {
    seq(DIR_ENTRIES, k requires 0 <= k < DIR_ENTRIES => EntryAt(b, k))
  }

  lemma DirPut(b: Image, k: nat, e: Entry)
    requires k < DIR_ENTRIES
    ensures Dir(PutEntry(b, k, e)) == Dir(b)[k := e]
  {
    hide EntryAt, PutEntry;
    forall j | 0 <= j < DIR_ENTRIES ensures Dir(PutEntry(b, k, e))[j] == Dir(b)[k := e][j] {
      PutEntryAt(b, k, e, j);
    }
  }

  /** Writing into cluster c from 2 on leaves the directory and every other cluster alone. */
  lemma WriteCluster(b: Image, c: nat, ofs: nat, d: seq<Byte>)
    requires 2 <= c < MaxCluster(b) && ofs + |d| <= CLUSTER_BYTES
    ensures ClusterAt(c) + ofs + |d| <= |b|
    ensures Dir(Splice(b, ClusterAt(c) + ofs, d)) == Dir(b)
    ensures forall x: nat | x < MaxCluster(b) && x != c :: Cluster(Splice(b, ClusterAt(c) + ofs, d), x) == Cluster(b, x)
  {
    ClusterInside(b, c);
    hide Splice;
    var p := ClusterAt(c) + ofs;
    forall k | 0 <= k < DIR_ENTRIES ensures EntryAt(Splice(b, p, d), k) == EntryAt(b, k) {
      SpliceElsewhere(b, p, d, EntryPos(k), 32);
    }
    assert Dir(Splice(b, p, d)) == Dir(b);
    forall x: nat | x < MaxCluster(b) && x != c ensures Cluster(Splice(b, p, d), x) == Cluster(b, x) {
      ClusterInside(b, x);
      SpliceElsewhere(b, p, d, ClusterAt(x), CLUSTER_BYTES);
    }
  }

  // ---- names ----

  predicate IsSpace(c: Byte) { c == 32 || 9 <= c <= 13 }

  function RTrim(s: seq<Byte>): seq<Byte>
  {
    if s != [] && IsSpace(s[|s| - 1]) then RTrim(s[..|s| - 1]) else s
  }

  /** A file is found by its trimmed name and extension. */
  datatype FileId = FileId(name: seq<Byte>, ext: seq<Byte>)

  function IdOf(e: Entry): FileId { FileId(RTrim(e.name), RTrim(e.ext)) }

  predicate Active(e: Entry) { e.user < 0x10 }
}
