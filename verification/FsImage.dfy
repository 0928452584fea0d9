/** Saving files into the image and reading them back (src/fsimage.cpp): block
    allocation, extents in directory entries, and the data clusters. */
module FsImage {
  import opened Words
  import opened FsLayout

  // ---- what is on the disk ----

  /** Directory entries refer to allocatable clusters only: 0 ends a list, 0 and 1 hold the directory. */
  predicate FatOk(f: seq<Word>, maxc: int) { forall i | 0 <= i < |f| :: f[i] == 0 || 2 <= f[i] < maxc }

  ghost predicate DirOk(d: seq<Entry>, maxc: int)
  {
    forall k | 0 <= k < |d| && Active(d[k]) :: FatOk(d[k].fat, maxc)
  }

  datatype Dirent = Dirent(chain: seq<Word>, size: int)

  /** load_dirent: collect the extents' cluster lists until one that is not full gives the size. */
  function Load(d: seq<Entry>, id: FileId): Dirent
  {
    if d == [] then Dirent([], 0)
    else if Active(d[0]) && IdOf(d[0]) == id then
      if d[0].records != 0x80 then Dirent(d[0].fat, d[0].extent * 16384 + d[0].records * 128)
      else var r := Load(d[1..], id); Dirent(d[0].fat + r.chain, r.size)
    else Load(d[1..], id)
  }

  lemma LoadStep(d: seq<Entry>, id: FileId, h: nat)
    requires h < |d|
    ensures var r := Load(d[h + 1..], id);
            Load(d[h..], id) ==
              if !(Active(d[h]) && IdOf(d[h]) == id) then r
              else if d[h].records != 0x80 then Dirent(d[h].fat, d[h].extent * 16384 + d[h].records * 128)
              else Dirent(d[h].fat + r.chain, r.size)
  {
    hide IdOf, Active;
    assert d[h..][1..] == d[h + 1..] && d[h..][0] == d[h];
  }

  lemma LoadEnd(d: seq<Entry>, id: FileId)
    ensures Load(d[|d|..], id) == Dirent([], 0)
  {
  }

  lemma {:induction false} LoadOk(d: seq<Entry>, id: FileId, maxc: int)
    requires DirOk(d, maxc)
    ensures FatOk(Load(d, id).chain, maxc) && Load(d, id).size >= 0
  {
    hide IdOf;
    if d != [] {
      assert d[0] in d && DirOk(d[1..], maxc);
      LoadOk(d[1..], id, maxc);
      assert Active(d[0]) ==> FatOk(d[0].fat, maxc);
    }
  }

  /** The clusters of a chain one after another, up to a zero. */
  function ChainData(b: Image, chain: seq<Word>): seq<Byte>
    requires FatOk(chain, MaxCluster(b))
  {
    if chain == [] || chain[0] == 0 then []
    else Cluster(b, chain[0]) + ChainData(b, chain[1..])
  }

  function Zeros(n: nat): seq<Byte> { seq(n, _ => 0) }

  /** The first `size` bytes, zeros where there are fewer. */
  function Clip(data: seq<Byte>, size: nat): (r: seq<Byte>)
    ensures |r| == size
  {
    if |data| >= size then data[..size] else data + Zeros(size - |data|)
  }

  /** read_bytes: `size` bytes of chain data, zeros beyond its end. */
  function Contents(b: Image, e: Dirent): (r: seq<Byte>)
    requires FatOk(e.chain, MaxCluster(b)) && e.size >= 0
    ensures |r| == e.size
  {
    Clip(ChainData(b, e.chain), e.size)
  }

  /** find_file looks for user 0. */
  ghost predicate Listed(d: seq<Entry>, id: FileId)
  {
    exists k | 0 <= k < |d| :: d[k].user == 0 && IdOf(d[k]) == id
  }

  /** read_file. */
  ghost function FileAt(b: Image, id: FileId): seq<Byte>
    requires DirOk(Dir(b), MaxCluster(b))
  {
    LoadOk(Dir(b), id, MaxCluster(b));
    var e := Load(Dir(b), id);
    if Listed(Dir(b), id) && e.size != 0 then Contents(b, e) else []
  }

  // ---- free space ----

  ghost predicate InUse(d: seq<Entry>, c: int)
  {
    exists k, i | 0 <= k < |d| && Active(d[k]) && 0 <= i < 8 :: d[k].fat[i] == c
  }

  ghost function FreeFrom(d: seq<Entry>, c: nat, maxc: int): (r: seq<Word>)
    requires maxc <= 65536
    ensures forall i | 0 <= i < |r| :: c <= r[i] < maxc && !InUse(d, r[i])
    ensures forall i, j | 0 <= i < j < |r| :: r[i] < r[j]
    decreases maxc - c
  {
    if c >= maxc then []
    else if InUse(d, c) then FreeFrom(d, c + 1, maxc)
    else [c] + FreeFrom(d, c + 1, maxc)
  }

  function ActiveCount(d: seq<Entry>): nat
  {
    if d == [] then 0 else ActiveCount(d[..|d| - 1]) + if Active(d[|d| - 1]) then 1 else 0
  }

  /** build_available_chain counts eight clusters per active entry, and gives up when too few remain;
      the count is unsigned, so more than all of them in use does not make it give up. */
  predicate Refused(d: seq<Entry>, maxc: int, length: int)
  {
    maxc == 0 || 0 <= maxc - 8 * ActiveCount(d) < length
  }

  /** The chain it returns; a request for no clusters gets all that are free. */
  ghost function Available(d: seq<Entry>, maxc: int, length: nat): (r: seq<Word>)
    requires 0 <= maxc <= 65536
    ensures forall i | 0 <= i < |r| :: 2 <= r[i] < maxc && !InUse(d, r[i])
    ensures forall i, j | 0 <= i < j < |r| :: r[i] < r[j]
  {
    var free := FreeFrom(d, 2, maxc);
    if Refused(d, maxc, length) then [] else if 1 <= length <= |free| then free[..length] else free
  }

  // ---- extents ----

  function ClustersFor(n: nat): nat { (n + 2047) / 2048 }

  function ExtentsFor(n: nat): nat { (n + 16383) / 16384 }

  function Min(a: int, b: int): int { if a < b then a else b }

  /** Number of 128-byte records the entry of extent e announces. */
  function RecordsOf(n: nat, e: nat): int { Min(0x80, (n - 16384 * e + 127) / 128) }

  /** The eight cluster numbers of extent e, zero past the end of the file. */
  function FatOf(n: nat, chain: seq<Word>, e: nat): (f: Fat)
    requires |chain| >= ClustersFor(n)
  {
    seq(8, i requires 0 <= i < 8 => if n - 16384 * e - 2048 * i > 0 then chain[8 * e + i] else 0)
  }

  datatype NewFile = NewFile(name: Name, ext: Ext, n: nat, chain: seq<Word>)

  function NewId(f: NewFile): FileId { FileId(RTrim(f.name), RTrim(f.ext)) }

  function ExtentEntry(f: NewFile, e: nat): Entry
    requires |f.chain| >= ClustersFor(f.n) && e < ExtentsFor(f.n) && e < 256
  {
    Entry(0, f.name, f.ext, e, 0, 0, RecordsOf(f.n, e), FatOf(f.n, f.chain, e))
  }

  /** Free entries among the first k. */
  function FreeBefore(d: seq<Entry>, k: nat): (n: nat)
    requires k <= |d|
    ensures n <= k
  {
    if k == 0 then 0 else FreeBefore(d, k - 1) + if Active(d[k - 1]) then 0 else 1
  }

  /** The directory after allocate_file: the first free entries take the extents in order. */
  function NewEntry(d: seq<Entry>, f: NewFile, k: nat): Entry
    requires k < |d| <= DIR_ENTRIES && |f.chain| >= ClustersFor(f.n)
  {
    if !Active(d[k]) && FreeBefore(d, k) < ExtentsFor(f.n) then ExtentEntry(f, FreeBefore(d, k)) else d[k]
  }

  function NewDir(d: seq<Entry>, f: NewFile): (r: seq<Entry>)
    requires |d| <= DIR_ENTRIES && |f.chain| >= ClustersFor(f.n)
    ensures |r| == |d|
  {
    seq(|d|, k requires 0 <= k < |d| => NewEntry(d, f, k))
  }

  // ---- loading what was allocated ----

  /** No directory entry in use has this name yet. */
  ghost predicate NameFree(d: seq<Entry>, id: FileId)
  {
    forall k | 0 <= k < |d| && Active(d[k]) :: IdOf(d[k]) != id
  }

  /** The cluster lists of extents e, e+1, ... up to the last. */
  function FatsFrom(f: NewFile, e: nat): seq<Word>
    requires |f.chain| >= ClustersFor(f.n)
    decreases ExtentsFor(f.n) - e
  {
    if e >= ExtentsFor(f.n) then [] else FatOf(f.n, f.chain, e) + FatsFrom(f, e + 1)
  }

  /** The last extent is recognised by not being full. */
  predicate LastNotFull(n: nat) { (n - 1) % 16384 < 16256 }

  function PaddedSize(n: nat): nat { (n + 127) / 128 * 128 }

  lemma RecordsMeaning(n: nat, e: nat)
    requires e < ExtentsFor(n)
    ensures 0 < RecordsOf(n, e) <= 0x80
    ensures RecordsOf(n, e) != 0x80 <==> e == ExtentsFor(n) - 1 && LastNotFull(n)
    ensures RecordsOf(n, e) != 0x80 ==> 16384 * e + 128 * RecordsOf(n, e) == PaddedSize(n)
  {
    var rem := n - 16384 * e;
    assert rem > 0;
    if e == ExtentsFor(n) - 1 {
      assert rem <= 16384;
      assert (n - 1) % 16384 == rem - 1;
      assert n + 127 == 128 * (128 * e) + (rem + 127);
      assert (n + 127) / 128 == 128 * e + (rem + 127) / 128;
    } else {
      assert rem > 16384;
    }
  }

  /** Reading the new directory from entry k on collects the remaining extents. */
  lemma {:induction false} LoadNew(d: seq<Entry>, f: NewFile, k: nat)
    requires |d| <= DIR_ENTRIES && |f.chain| >= ClustersFor(f.n) && k <= |d| && f.n > 0
    requires NameFree(d, NewId(f)) && ExtentsFor(f.n) <= FreeBefore(d, |d|)
    requires FreeBefore(d, k) < ExtentsFor(f.n)
    ensures var r := Load(NewDir(d, f)[k..], NewId(f));
            r.chain == FatsFrom(f, FreeBefore(d, k)) && r.size == if LastNotFull(f.n) then PaddedSize(f.n) else 0
    decreases |d| - k
  {
    hide RTrim, FatOf, LastNotFull, PaddedSize, RecordsOf, ClustersFor, ExtentsFor, Load, FatsFrom, FreeBefore;
    var e := FreeBefore(d, k);
    if k < |d| {
      LoadStep(NewDir(d, f), NewId(f), k);
      FreeStep(d, k);
      RecordsMeaning(f.n, e);
      FatsStep(f, e);
      if Active(d[k]) || e + 1 < ExtentsFor(f.n) {
        LoadNew(d, f, k + 1);
      } else if RecordsOf(f.n, e) == 0x80 {
        LoadNone(d, f, k + 1);
      }
    }
  }

  /** Without room for the last extent no size is found. */
  lemma {:induction false} LoadShort(d: seq<Entry>, f: NewFile, k: nat)
    requires |d| <= DIR_ENTRIES && |f.chain| >= ClustersFor(f.n) && k <= |d|
    requires NameFree(d, NewId(f)) && FreeBefore(d, |d|) < ExtentsFor(f.n)
    ensures Load(NewDir(d, f)[k..], NewId(f)).size == 0
    decreases |d| - k
  {
    hide RTrim, FatOf, LastNotFull, PaddedSize, RecordsOf, ClustersFor, ExtentsFor, Load, FreeBefore;
    if k < |d| {
      LoadStep(NewDir(d, f), NewId(f), k);
      FreeStep(d, k);
      FreeGrows(d, k + 1, |d|);
      if !Active(d[k]) {
        RecordsMeaning(f.n, FreeBefore(d, k));
      }
      LoadShort(d, f, k + 1);
    } else {
      LoadEnd(NewDir(d, f), NewId(f));
    }
  }

  lemma {:induction false} FreeGrows(d: seq<Entry>, j: nat, k: nat)
    requires j <= k <= |d|
    ensures FreeBefore(d, j) <= FreeBefore(d, k)
    decreases k
  {
    if j < k {
      FreeGrows(d, j, k - 1);
    }
  }

  lemma FreeStep(d: seq<Entry>, k: nat)
    requires k < |d|
    ensures FreeBefore(d, k + 1) == FreeBefore(d, k) + if Active(d[k]) then 0 else 1
  {
  }

  lemma FatsStep(f: NewFile, e: nat)
    requires |f.chain| >= ClustersFor(f.n) && e < ExtentsFor(f.n)
    ensures FatsFrom(f, e) == FatOf(f.n, f.chain, e) + FatsFrom(f, e + 1)
    ensures e + 1 == ExtentsFor(f.n) ==> FatsFrom(f, e + 1) == [] && FatsFrom(f, e) == FatOf(f.n, f.chain, e)
  {
    hide FatOf;
  }

  /** Past the last extent nothing carries the new name. */
  lemma {:induction false} LoadNone(d: seq<Entry>, f: NewFile, k: nat)
    requires |d| <= DIR_ENTRIES && |f.chain| >= ClustersFor(f.n) && k <= |d|
    requires NameFree(d, NewId(f)) && FreeBefore(d, k) >= ExtentsFor(f.n)
    ensures Load(NewDir(d, f)[k..], NewId(f)) == Dirent([], 0)
    decreases |d| - k
  {
    hide RTrim, FatOf, Load, FreeBefore, ClustersFor, ExtentsFor;
    if k < |d| {
      FreeStep(d, k);
      LoadStep(NewDir(d, f), NewId(f), k);
      LoadNone(d, f, k + 1);
    } else {
      LoadEnd(NewDir(d, f), NewId(f));
    }
  }

  /** Other names load as before. */
  lemma {:induction false} LoadOther(d: seq<Entry>, f: NewFile, id: FileId, k: nat)
    requires |d| <= DIR_ENTRIES && |f.chain| >= ClustersFor(f.n) && k <= |d| && id != NewId(f)
    ensures Load(NewDir(d, f)[k..], id) == Load(d[k..], id)
    decreases |d| - k
  {
    hide RTrim, FatOf;
    var nd := NewDir(d, f);
    if k < |d| {
      assert nd[k..][1..] == nd[k + 1..] && nd[k..][0] == NewEntry(d, f, k) && d[k..][1..] == d[k + 1..];
      LoadOther(d, f, id, k + 1);
    }
  }

  // ---- data clusters ----

  function Fill(n: nat): seq<Byte> { seq(n, _ => FILLER) }

  /** The content filled up to whole clusters. */
  function Whole(content: seq<Byte>): (r: seq<Byte>)
    ensures |r| == 2048 * ClustersFor(|content|)
  {
    content + Fill(2048 * ClustersFor(|content|) - |content|)
  }

  /** The clusters of the chain hold the content. */
  ghost predicate Holds(b: Image, chain: seq<Word>, content: seq<Byte>)
    requires FatOk(chain, MaxCluster(b)) && |chain| >= ClustersFor(|content|)
  {
    forall k | 0 <= k < ClustersFor(|content|) ::
      chain[k] != 0 && Cluster(b, chain[k]) == Whole(content)[2048 * k..2048 * k + 2048]
  }

  lemma {:induction false} ChainDataIs(b: Image, chain: seq<Word>, content: seq<Byte>, k: nat, zeros: seq<Word>)
    requires FatOk(chain, MaxCluster(b)) && |chain| >= ClustersFor(|content|) && Holds(b, chain, content)
    requires k <= ClustersFor(|content|) && forall i | 0 <= i < |zeros| :: zeros[i] == 0
    ensures var c := chain[k..ClustersFor(|content|)] + zeros;
            FatOk(c, MaxCluster(b)) && ChainData(b, c) == Whole(content)[2048 * k..]
    decreases ClustersFor(|content|) - k
  {
    hide Whole, Cluster, MaxCluster;
    var m := ClustersFor(|content|);
    var c := chain[k..m] + zeros;
    if k < m {
      ChainDataIs(b, chain, content, k + 1, zeros);
      assert c[1..] == chain[k + 1..m] + zeros && c[0] == chain[k];
      assert Whole(content)[2048 * k..] == Whole(content)[2048 * k..2048 * k + 2048] + Whole(content)[2048 * (k + 1)..];
    }
  }

  /** The extents' cluster lists are the chain, then zeros. */
  lemma {:induction false} FatsAre(f: NewFile, e: nat) returns (zeros: seq<Word>)
    requires |f.chain| >= ClustersFor(f.n) && e <= ExtentsFor(f.n)
    ensures forall i | 0 <= i < |zeros| :: zeros[i] == 0
    ensures FatsFrom(f, e) == f.chain[Min(8 * e, ClustersFor(f.n))..ClustersFor(f.n)] + zeros
    decreases ExtentsFor(f.n) - e
  {
    var m := ClustersFor(f.n);
    if e == ExtentsFor(f.n) {
      zeros := [];
      assert 8 * e >= m;
    } else {
      var z := FatsAre(f, e + 1);
      var fat := FatOf(f.n, f.chain, e);
      assert 8 * e < m;
      var got := Min(8, m - 8 * e);
      zeros := fat[got..] + z;
      forall i | 0 <= i < 8 ensures fat[i] == if i < got then f.chain[8 * e + i] else 0 {
        assert f.n - 16384 * e - 2048 * i > 0 <==> 8 * e + i < m;
      }
      assert fat[..got] == f.chain[8 * e..8 * e + got];
      assert FatsFrom(f, e) == fat[..got] + fat[got..] + FatsFrom(f, e + 1);
      if got < 8 {
        assert f.chain[Min(8 * (e + 1), m)..m] == [];
      } else {
        assert f.chain[8 * e..m] == f.chain[8 * e..8 * e + 8] + f.chain[8 * (e + 1)..m];
      }
    }
  }

  /** What load_dirent and read_bytes return for the new file. */
  lemma NewContents(b: Image, f: NewFile, content: seq<Byte>)
    requires f.n == |content| > 0 && FatOk(f.chain, MaxCluster(b)) && |f.chain| >= ClustersFor(f.n)
    requires Holds(b, f.chain, content)
    ensures FatOk(FatsFrom(f, 0), MaxCluster(b))
    ensures Contents(b, Dirent(FatsFrom(f, 0), PaddedSize(f.n))) == content + Fill(PaddedSize(f.n) - f.n)
  {
    var zeros := FatsAre(f, 0);
    hide FatsFrom, ChainData, Holds, MaxCluster;
    ChainDataIs(b, f.chain, content, 0, zeros);
    assert f.chain[Min(8 * 0, ClustersFor(f.n))..ClustersFor(f.n)] == f.chain[0..ClustersFor(f.n)];
    assert Whole(content)[2048 * 0..] == Whole(content);
    assert PaddedSize(f.n) <= 2048 * ClustersFor(f.n);
    assert Whole(content)[..PaddedSize(f.n)] == content + Fill(PaddedSize(f.n) - f.n);
  }

  // ---- other files ----

  lemma {:induction false} LoadedInUse(d: seq<Entry>, id: FileId, i: nat)
    requires i < |Load(d, id).chain|
    ensures InUse(d, Load(d, id).chain[i])
  {
    hide IdOf;
    var c := Load(d, id).chain[i];
    if d[0].user < 0x10 && IdOf(d[0]) == id && i < 8 {
      assert d[0].fat[i] == c;
    } else {
      LoadedInUse(d[1..], id, if d[0].user < 0x10 && IdOf(d[0]) == id then i - 8 else i);
      var k, j :| 0 <= k < |d[1..]| && Active(d[1..][k]) && 0 <= j < 8 && d[1..][k].fat[j] == c;
      assert d[k + 1] == d[1..][k];
    }
  }

  lemma {:induction false} SameClustersSameData(b: Image, b': Image, chain: seq<Word>)
    requires MaxCluster(b') == MaxCluster(b) && FatOk(chain, MaxCluster(b))
    requires forall i | 0 <= i < |chain| && chain[i] != 0 :: Cluster(b', chain[i]) == Cluster(b, chain[i])
    ensures ChainData(b', chain) == ChainData(b, chain)
  {
    hide Cluster, MaxCluster;
    if chain != [] && chain[0] != 0 {
      SameClustersSameData(b, b', chain[1..]);
    }
  }

  lemma ListedSame(d: seq<Entry>, f: NewFile, id: FileId)
    requires |d| <= DIR_ENTRIES && |f.chain| >= ClustersFor(f.n) && id != NewId(f)
    ensures Listed(NewDir(d, f), id) <==> Listed(d, id)
  {
    hide RTrim, FatOf, FreeBefore;
    var nd := NewDir(d, f);
    if Listed(d, id) {
      var k :| 0 <= k < |d| && d[k].user == 0 && IdOf(d[k]) == id;
      assert nd[k] == NewEntry(d, f, k) == d[k];
    }
    if Listed(nd, id) {
      var k :| 0 <= k < |nd| && nd[k].user == 0 && IdOf(nd[k]) == id;
      assert nd[k] == NewEntry(d, f, k);
    }
  }

  lemma ListedNew(d: seq<Entry>, f: NewFile)
    requires |d| <= DIR_ENTRIES && |f.chain| >= ClustersFor(f.n) && f.n > 0 && FreeBefore(d, |d|) > 0
    ensures Listed(NewDir(d, f), NewId(f))
  {
    hide RTrim, FatOf;
    var k := FirstFree(d, |d|);
    assert NewDir(d, f)[k] == NewEntry(d, f, k);
  }

  lemma {:induction false} FirstFree(d: seq<Entry>, n: nat) returns (k: nat)
    requires n <= |d| && FreeBefore(d, n) > 0
    ensures k < n && !Active(d[k]) && FreeBefore(d, k) == 0
  {
    if FreeBefore(d, n - 1) > 0 {
      k := FirstFree(d, n - 1);
    } else {
      k := n - 1;
    }
  }

  lemma NewDirOk(d: seq<Entry>, f: NewFile, maxc: int)
    requires |d| <= DIR_ENTRIES && |f.chain| >= ClustersFor(f.n) && DirOk(d, maxc)
    requires forall i | 0 <= i < |f.chain| :: 2 <= f.chain[i] < maxc
    ensures DirOk(NewDir(d, f), maxc)
  {
    var nd := NewDir(d, f);
    forall k | 0 <= k < |nd| && Active(nd[k]) ensures FatOk(nd[k].fat, maxc) {
      assert nd[k] == NewEntry(d, f, k);
    }
  }

  /** From a valid image, one save: the new file reads back, every other file is untouched. */
  ghost predicate Saved(b: Image, b': Image, f: NewFile, content: seq<Byte>)
  {
    && |b'| == |b| && f.n == |content| && |f.chain| >= ClustersFor(f.n)
    && FatOk(f.chain, MaxCluster(b'))
    && Dir(b') == NewDir(Dir(b), f)
    && Holds(b', f.chain, content)
    && (forall x: nat | 2 <= x < MaxCluster(b) && x !in f.chain :: Cluster(b', x) == Cluster(b, x))
  }

  lemma SaveIsolates(b: Image, b': Image, f: NewFile, content: seq<Byte>, id: FileId)
    requires DirOk(Dir(b), MaxCluster(b)) && Saved(b, b', f, content) && id != NewId(f)
    requires DirOk(Dir(b'), MaxCluster(b'))
    requires forall i | 0 <= i < |f.chain| :: !InUse(Dir(b), f.chain[i])
    ensures FileAt(b', id) == FileAt(b, id)
  {
    var d := Dir(b);
    LoadOther(d, f, id, 0);
    ListedSame(d, f, id);
    assert NewDir(d, f)[0..] == NewDir(d, f) && d[0..] == d;
    hide Dir, NewDir, Listed;
    SameData(b, b', f, content, id);
  }

  /** A file whose entries load as before has the bytes it had. */
  lemma SameData(b: Image, b': Image, f: NewFile, content: seq<Byte>, id: FileId)
    requires DirOk(Dir(b), MaxCluster(b)) && Saved(b, b', f, content) && DirOk(Dir(b'), MaxCluster(b'))
    requires forall i | 0 <= i < |f.chain| :: !InUse(Dir(b), f.chain[i])
    requires Load(Dir(b'), id) == Load(Dir(b), id) && (Listed(Dir(b'), id) <==> Listed(Dir(b), id))
    ensures FileAt(b', id) == FileAt(b, id)
  {
    var d := Dir(b);
    hide Dir, Load, NewDir, Listed, Cluster, MaxCluster, InUse, ChainData;
    var e := Load(d, id);
    LoadOk(d, id, MaxCluster(b));
    assert MaxCluster(b') == MaxCluster(b) by { SizeDecides(b, b'); }
    forall i | 0 <= i < |e.chain| && e.chain[i] != 0 ensures Cluster(b', e.chain[i]) == Cluster(b, e.chain[i]) {
      LoadedInUse(d, id, i);
      assert e.chain[i] !in f.chain;
    }
    SameClustersSameData(b, b', e.chain);
  }

  lemma SizeDecides(b: Image, b': Image)
    requires |b'| == |b|
    ensures MaxCluster(b') == MaxCluster(b)
  {
  }

  /** The new file has a size at all exactly when the directory takes its last extent and that one is not full. */
  predicate ReadsBack(d: seq<Entry>, n: nat) { LastNotFull(n) && ExtentsFor(n) <= FreeBefore(d, |d|) }

  lemma SaveRoundTrip(b: Image, b': Image, f: NewFile, content: seq<Byte>)
    requires DirOk(Dir(b), MaxCluster(b)) && Saved(b, b', f, content) && DirOk(Dir(b'), MaxCluster(b'))
    requires NameFree(Dir(b), NewId(f))
    ensures FileAt(b', NewId(f)) == if ReadsBack(Dir(b), f.n) then content + Fill(PaddedSize(f.n) - f.n) else []
  {
    var d := Dir(b);
    assert NewDir(d, f)[0..] == NewDir(d, f);
    hide Dir, Load, NewDir, Listed, Holds, Contents, FatsFrom, RTrim, MaxCluster;
    if f.n == 0 {
      LoadNone(d, f, 0);
    } else if ExtentsFor(f.n) <= FreeBefore(d, |d|) {
      ListedNew(d, f);
      LoadNew(d, f, 0);
      NewContents(b', f, content);
    } else {
      LoadShort(d, f, 0);
    }
  }

  /** Under a name whose last extent comes before any free entry the old file stays in front of the new one. */
  lemma OldFileStays(b: Image, b': Image, f: NewFile, content: seq<Byte>, k: nat)
    requires DirOk(Dir(b), MaxCluster(b)) && Saved(b, b', f, content) && DirOk(Dir(b'), MaxCluster(b'))
    requires forall i | 0 <= i < |f.chain| :: !InUse(Dir(b), f.chain[i])
    requires k < DIR_ENTRIES && FreeBefore(Dir(b), k) == 0 && Listed(Dir(b), NewId(f))
    requires var e := Dir(b)[k]; Active(e) && IdOf(e) == NewId(f) && e.records != 0x80
    ensures FileAt(b', NewId(f)) == FileAt(b, NewId(f))
  {
    var d, id := Dir(b), NewId(f);
    StillListed(d, f);
    LoadBefore(d, f, 0, k);
    assert NewDir(d, f)[0..] == NewDir(d, f) && d[0..] == d;
    hide Dir, NewDir, Listed, RTrim;
    SameData(b, b', f, content, id);
  }

  lemma StillListed(d: seq<Entry>, f: NewFile)
    requires |d| <= DIR_ENTRIES && |f.chain| >= ClustersFor(f.n) && Listed(d, NewId(f))
    ensures Listed(NewDir(d, f), NewId(f))
  {
    hide RTrim, FatOf, FreeBefore;
    var k :| 0 <= k < |d| && d[k].user == 0 && IdOf(d[k]) == NewId(f);
    assert NewDir(d, f)[k] == NewEntry(d, f, k) == d[k];
  }

  lemma {:induction false} LoadBefore(d: seq<Entry>, f: NewFile, j: nat, k: nat)
    requires |d| <= DIR_ENTRIES && |f.chain| >= ClustersFor(f.n) && j <= k < |d| && FreeBefore(d, k) == 0
    requires Active(d[k]) && IdOf(d[k]) == NewId(f) && d[k].records != 0x80
    ensures Load(NewDir(d, f)[j..], NewId(f)) == Load(d[j..], NewId(f))
    decreases k - j
  {
    hide RTrim, FatOf, Load, FreeBefore, ClustersFor, ExtentsFor;
    LoadStep(d, NewId(f), j);
    LoadStep(NewDir(d, f), NewId(f), j);
    if j < k {
      FreeStep(d, j);
      FreeGrows(d, j + 1, k);
      LoadBefore(d, f, j + 1, k);
    }
  }
}
