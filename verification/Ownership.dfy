/** Who owns which byte of the ROM window, and the names the exporter gives to addresses
    (debugger/export/asm_exporter.cpp: buildNameMap, buildLayout, computeCoverage). */
module Ownership {
  import opened Words
  import opened Numbers
  import opened Analyzer
  import opened Literals

  // ---- the reverse-engineering database ----

  datatype ObjectType = Function | Variable | Data | Table | String | Code | Label | Unknown

  datatype RdbObject = RdbObject(address: Word, kind: ObjectType, name: string, size: nat)

  predicate CodeLike(o: RdbObject) { o.kind.Function? || o.kind.Code? || o.kind.Label? }

  // ---- names ----

  function GenerateLabel(a: Word): (s: string)
    ensures s != ""
  {
    "label_" + Hex(a, 4, true)
  }

  function GapLabel(a: Word): (s: string)
    ensures s != ""
  {
    "gap_" + Hex(a, 4, true)
  }

  predicate IsAlnum(c: char) { IsDigit(c) || 'a' <= c <= 'z' || 'A' <= c <= 'Z' }

  function Underscored(name: string): (r: string)
    ensures |r| == |name| && forall i | 0 <= i < |r| :: IsAlnum(r[i]) || r[i] == '_'
  {
    if name == "" then "" else [if IsAlnum(name[0]) then name[0] else '_'] + Underscored(name[1..])
  }

  /** An identifier: letters, digits and underscores, not starting with a digit. */
  function SanitizeLabel(name: string): (r: string)
    ensures name != "" ==> r != "" && !IsDigit(r[0])
    ensures forall i | 0 <= i < |r| :: IsAlnum(r[i]) || r[i] == '_'
  {
    var r := Underscored(name);
    if r != "" && IsDigit(r[0]) then "_" + r else r
  }

  /** n is a name the exporter may define for address a. */
  ghost predicate Claims(objects: seq<RdbObject>, n: string, a: int)
  {
    && 0 <= a < 65536
    && (n == GenerateLabel(a) || n == GapLabel(a)
        || exists o <- objects :: o.name != "" && o.address == a && SanitizeLabel(o.name) == n)
  }

  /** No two addresses share a name, and no object is named like the generated name of another address. */
  ghost predicate NamesUsable(objects: seq<RdbObject>)
  {
    && (forall o, p | o in objects && p in objects && o.name != "" && p.name != "" ::
          SanitizeLabel(o.name) == SanitizeLabel(p.name) ==> o.address == p.address)
    && (forall o <- objects, a: Word | o.name != "" ::
          SanitizeLabel(o.name) == GenerateLabel(a) || SanitizeLabel(o.name) == GapLabel(a) ==> o.address == a)
  }

  lemma GeneratedApart(a: Word, b: Word)
    ensures GenerateLabel(a) == GenerateLabel(b) ==> a == b
    ensures GapLabel(a) == GapLabel(b) ==> a == b
    ensures GenerateLabel(a) != GapLabel(b)
  {
    hide Hex;
    assert GenerateLabel(a)[0] == 'l' && GapLabel(b)[0] == 'g';
    assert GenerateLabel(a)[6..] == Hex(a, 4, true) && GenerateLabel(b)[6..] == Hex(b, 4, true);
    assert GapLabel(a)[4..] == Hex(a, 4, true) && GapLabel(b)[4..] == Hex(b, 4, true);
    if Hex(a, 4, true) == Hex(b, 4, true) {
      HexInjective(a, b);
    }
  }

  lemma ClaimsUnique(objects: seq<RdbObject>, n: string, a: int, b: int)
    requires NamesUsable(objects) && Claims(objects, n, a) && Claims(objects, n, b)
    ensures a == b
  {
    hide GenerateLabel, GapLabel, SanitizeLabel;
    GeneratedApart(a, b);
    GeneratedApart(b, a);
  }

  /** The name of the last named object at the address, or none. */
  function NameAt(objects: seq<RdbObject>, a: Word): string
  {
    if objects == [] then ""
    else
      var o := objects[|objects| - 1];
      if o.name != "" && o.address == a then SanitizeLabel(o.name) else NameAt(objects[..|objects| - 1], a)
  }

  lemma {:induction false} NameAtClaims(objects: seq<RdbObject>, all: seq<RdbObject>, a: Word)
    requires forall o <- objects :: o in all
    ensures NameAt(objects, a) != "" <==> exists o <- objects :: o.name != "" && o.address == a
    ensures NameAt(objects, a) != "" ==> Claims(all, NameAt(objects, a), a)
  {
    hide SanitizeLabel, GenerateLabel, GapLabel;
    if objects != [] {
      NameAtClaims(objects[..|objects| - 1], all, a);
      var o := objects[|objects| - 1];
      assert objects == objects[..|objects| - 1] + [o];
    }
  }

  /** Database objects name their addresses; other targets of the code get generated names. */
  ghost predicate NamesFrom(names: map<Word, string>, objects: seq<RdbObject>, references: seq<Word>)
  {
    && (forall a: Word :: a in names <==> a in references || NameAt(objects, a) != "")
    && (forall a <- names :: names[a] == if NameAt(objects, a) != "" then NameAt(objects, a) else GenerateLabel(a))
  }

  /** Names of analysis targets and of database objects. */
  method BuildNameMap(objects: seq<RdbObject>, references: seq<Word>) returns (names: map<Word, string>)
    ensures NamesFrom(names, objects, references)
  {
    hide GenerateLabel, SanitizeLabel;
    names := map[];
    for k := 0 to |objects|
      invariant forall a: Word :: a in names <==> NameAt(objects[..k], a) != ""
      invariant forall a <- names :: names[a] == NameAt(objects[..k], a)
    {
      assert objects[..k + 1][..k] == objects[..k];
      if objects[k].name != "" {
        names := names[objects[k].address := SanitizeLabel(objects[k].name)];
      }
    }
    assert objects[..|objects|] == objects;
    hide NameAt;
    for k := 0 to |references|
      invariant NamesFrom(names, objects, references[..k])
    {
      assert references[..k + 1] == references[..k] + [references[k]];
      if references[k] !in names {
        names := names[references[k] := GenerateLabel(references[k])];
      }
    }
    assert references[..|references|] == references;
  }

  /** Every name is one the exporter may define for its address. */
  lemma NamesAreClaimed(names: map<Word, string>, objects: seq<RdbObject>, references: seq<Word>)
    requires NamesFrom(names, objects, references)
    ensures forall a <- names :: names[a] != "" && Claims(objects, names[a], a)
  {
    hide NameAt, SanitizeLabel, GenerateLabel, GapLabel;
    forall a <- names ensures names[a] != "" && Claims(objects, names[a], a) {
      NameAtClaims(objects, objects, a);
    }
  }

  // ---- byte ownership ----

  /** A run of bytes owned by one database object. */
  datatype DataUnit = DataUnit(address: Word, size: nat, name: string)

  ghost predicate UnitAt(units: seq<DataUnit>, b: int)
  {
    exists u <- units :: u.address <= b < u.address + u.size
  }

  /** 1: instruction byte, 2: byte of a data unit, 0: nobody's. */
  ghost predicate OwnerIs(owner: seq<int>, origin: Word, instrs: seq<Instr>, units: seq<DataUnit>)
  {
    forall k | 0 <= k < |owner| ::
      owner[k] == if Covers(instrs, origin + k) then 1 else if UnitAt(units, origin + k) then 2 else 0
  }

  ghost predicate UnitsOk(units: seq<DataUnit>, instrs: seq<Instr>, objects: seq<RdbObject>, origin: Word, end: int)
  {
    && (forall u <- units :: u.size > 0 && origin <= u.address && u.address + u.size <= end
                             && u.name != "" && Claims(objects, u.name, u.address))
    && (forall b | UnitAt(units, b) :: !Covers(instrs, b))
    && (forall i, j | 0 <= i < j < |units| ::
          units[i].address + units[i].size <= units[j].address || units[j].address + units[j].size <= units[i].address)
  }

  lemma UnitAtAppend(units: seq<DataUnit>, u: DataUnit, b: int)
    ensures UnitAt(units + [u], b) <==> UnitAt(units, b) || u.address <= b < u.address + u.size
  {
    assert u in units + [u];
    if UnitAt(units, b) {
      var v :| v in units && v.address <= b < v.address + v.size;
      assert v in units + [u];
    }
  }

  /** Claiming a run of free bytes keeps the books. */
  lemma AddUnit(owner: seq<int>, owner': seq<int>, origin: Word, instrs: seq<Instr>, units: seq<DataUnit>,
                objects: seq<RdbObject>, u: DataUnit)
    requires OwnerIs(owner, origin, instrs, units) && UnitsOk(units, instrs, objects, origin, origin + |owner|)
    requires origin <= u.address && u.size > 0 && u.address + u.size <= origin + |owner|
    requires u.name != "" && Claims(objects, u.name, u.address)
    requires forall k | u.address - origin <= k < u.address - origin + u.size :: owner[k] == 0
    requires |owner'| == |owner| && forall k | 0 <= k < |owner| ::
               owner'[k] == if u.address <= origin + k < u.address + u.size then 2 else owner[k]
    ensures OwnerIs(owner', origin, instrs, units + [u])
    ensures UnitsOk(units + [u], instrs, objects, origin, origin + |owner|)
  {
    hide Covers, Claims, UnitAt;
    forall b ensures UnitAt(units + [u], b) <==> UnitAt(units, b) || u.address <= b < u.address + u.size {
      UnitAtAppend(units, u, b);
    }
    forall b | u.address <= b < u.address + u.size ensures !Covers(instrs, b) && !UnitAt(units, b) {
      assert owner[b - origin] == 0 && origin + (b - origin) == b;
    }
    forall i | 0 <= i < |units|
      ensures units[i].address + units[i].size <= u.address || u.address + u.size <= units[i].address
    {
      assert UnitAt(units, units[i].address) by { UnitCovers(units, i, units[i].address); }
      if units[i].address <= u.address < units[i].address + units[i].size {
        UnitCovers(units, i, u.address);
      }
    }
  }

  lemma UnitCovers(units: seq<DataUnit>, i: nat, b: int)
    requires i < |units| && units[i].address <= b < units[i].address + units[i].size
    ensures UnitAt(units, b)
  {
    assert units[i] in units;
  }

  // ---- the window ----

  ghost predicate InWindow(i: Instr, origin: Word, end: int)
  {
    origin <= i.address && i.address + i.size <= end && 1 <= i.size <= 3
  }

  /** The bytes below 64K as the disassembler reads them: the ROM at its origin, zeros elsewhere. */
  function ReadByte(rom: seq<Byte>, origin: Word, a: Word): Byte
  {
    if a < origin then 0 else if a - origin < |rom| then rom[a - origin] else 0
  }

  function ImageOf(rom: seq<Byte>, origin: Word): Image
  {
    seq(65536, a requires 0 <= a < 65536 => ReadByte(rom, origin, a))
  }

  /** In strictly ascending address order. */
  ghost predicate Rising(instrs: seq<Instr>)
  {
    forall i, j | 0 <= i < j < |instrs| :: instrs[i].address < instrs[j].address
  }

  lemma NoneRising()
    ensures Rising([])
  {
  }

  lemma RisingMore(instrs: seq<Instr>, kept: seq<Instr>, k: nat)
    requires Rising(instrs) && Rising(kept) && k < |instrs| && forall i <- kept :: i in instrs[..k]
    ensures Rising(kept + [instrs[k]])
  {
    forall i | 0 <= i < |kept| ensures kept[i].address < instrs[k].address {
      assert kept[i] in instrs[..k];
    }
  }

  /** Instructions outside the window are dropped. */
  method Clip(instrs: seq<Instr>, origin: Word, size: nat) returns (kept: seq<Instr>, dropped: nat)
    ensures forall i :: i in kept <==> i in instrs && origin <= i.address && i.address + i.size <= origin + size
    ensures dropped + |kept| == |instrs|
    ensures Rising(instrs) ==> Rising(kept)
  {
    hide Rising;
    NoneRising();
    kept, dropped := [], 0;
    for k := 0 to |instrs|
      invariant forall i ::
                  i in kept <==> i in instrs[..k] && origin <= i.address && i.address + i.size <= origin + size
      invariant dropped + |kept| == k
      invariant Rising(instrs) ==> Rising(kept)
    {
      assert instrs[..k + 1] == instrs[..k] + [instrs[k]];
      var i := instrs[k];
      if i.address >= origin && i.address + i.size <= origin + size {
        if Rising(instrs) {
          RisingMore(instrs, kept, k);
        }
        kept := kept + [i];
      } else {
        dropped := dropped + 1;
      }
    }
    assert instrs[..|instrs|] == instrs;
  }

  method MarkCode(instrs: seq<Instr>, origin: Word, size: nat) returns (owner: seq<int>)
    requires forall i <- instrs :: 1 <= i.size
    ensures |owner| == size && OwnerIs(owner, origin, instrs, [])
  {
    owner := seq(size, _ => 0);
    for k := 0 to |instrs|
      invariant |owner| == size
      invariant forall o | 0 <= o < size :: owner[o] == if Covers(instrs[..k], origin + o) then 1 else 0
    {
      assert instrs[..k + 1] == instrs[..k] + [instrs[k]];
      ghost var before := owner;
      var i := instrs[k];
      for n := 0 to i.size
        invariant |owner| == size
        invariant forall o | 0 <= o < size ::
                    owner[o] == if i.address <= origin + o < i.address + n then 1 else before[o]
      {
        var o := i.address + n - origin;
        if 0 <= o < size {
          owner := owner[o := 1];
        }
      }
      forall o | 0 <= o < size ensures owner[o] == if Covers(instrs[..k + 1], origin + o) then 1 else 0 {
        CoversAppend(instrs[..k], i, origin + o);
      }
    }
    assert instrs[..|instrs|] == instrs;
  }

  // ---- coverage ----

  ghost predicate GapsOk(gaps: seq<Range>, owner: seq<int>, origin: Word)
  {
    && Separated(gaps)
    && (forall g <- gaps :: origin <= g.start && g.end < origin + |owner|)
    && (forall k | 0 <= k < |owner| :: owner[k] == 0 <==> InRanges(gaps, origin + k))
  }

  function Sizes(gaps: seq<Range>): int
  {
    if gaps == [] then 0 else Sizes(gaps[..|gaps| - 1]) + gaps[|gaps| - 1].end - gaps[|gaps| - 1].start + 1
  }

  function Count(owner: seq<int>, v: int): nat
  {
    if owner == [] then 0 else Count(owner[..|owner| - 1], v) + if owner[|owner| - 1] == v then 1 else 0
  }

  /** One coverage step: the bytes before i are accounted for. */
  ghost predicate CoveredTo(gaps: seq<Range>, owner: seq<int>, origin: Word, i: nat)
    requires i <= |owner|
  {
    && Separated(gaps)
    && (forall g <- gaps :: origin <= g.start && g.end < origin + i)
    && (forall k | 0 <= k < i :: owner[k] == 0 <==> InRanges(gaps, origin + k))
    && (i < |owner| && owner[i] == 0 ==> forall g <- gaps :: g.end + 1 < origin + i)
  }

  lemma AddGap(gaps: seq<Range>, owner: seq<int>, origin: Word, i: nat, j: nat)
    requires i < j <= |owner| && origin + |owner| <= 65536 && CoveredTo(gaps, owner, origin, i)
    requires owner[i] == 0 && (forall k | i <= k < j :: owner[k] == 0) && (j < |owner| ==> owner[j] != 0)
    ensures CoveredTo(gaps + [Range(origin + i, origin + j - 1)], owner, origin, j)
    ensures Sizes(gaps + [Range(origin + i, origin + j - 1)]) == Sizes(gaps) + j - i
  {
    hide InRanges;
    var r := Range(origin + i, origin + j - 1);
    forall k | 0 <= k < j ensures owner[k] == 0 <==> InRanges(gaps + [r], origin + k) {
      InRangesAppend(gaps, r, origin + k);
      if i <= k && InRanges(gaps, origin + k) {
        GapHolds(gaps, origin + k);
      }
    }
    assert (gaps + [r])[..|gaps|] == gaps;
    forall a, b | 0 <= a < b < |gaps + [r]| ensures (gaps + [r])[a].end + 1 < (gaps + [r])[b].start {
      if b == |gaps| {
        assert gaps[a] in gaps;
      }
    }
  }

  lemma GapHolds(gaps: seq<Range>, b: int)
    requires InRanges(gaps, b)
    ensures exists g <- gaps :: g.start <= b <= g.end
  {
  }

  datatype Coverage = Coverage(codeBytes: nat, dataBytes: nat, uncovered: seq<Range>)

  method ComputeCoverage(owner: seq<int>, origin: Word) returns (c: Coverage)
    requires origin + |owner| <= 65536 && forall k | 0 <= k < |owner| :: owner[k] in {0, 1, 2}
    ensures GapsOk(c.uncovered, owner, origin)
    ensures c.codeBytes == Count(owner, 1) && c.dataBytes == Count(owner, 2)
    ensures c.codeBytes + c.dataBytes + Sizes(c.uncovered) == |owner|
  {
    hide InRanges, Separated, CoveredTo, GapsOk;
    var code, data, gaps := 0, 0, [];
    assert CoveredTo(gaps, owner, origin, 0) by { NoGaps(owner, origin); }
    var i := 0;
    while i < |owner|
      invariant i <= |owner| && CoveredTo(gaps, owner, origin, i)
      invariant code == Count(owner[..i], 1) && data == Count(owner[..i], 2) && code + data + Sizes(gaps) == i
    {
      assert owner[..i + 1][..i] == owner[..i];
      if owner[i] == 1 {
        SkipOwned(gaps, owner, origin, i);
        code, i := code + 1, i + 1;
      } else if owner[i] == 2 {
        SkipOwned(gaps, owner, origin, i);
        data, i := data + 1, i + 1;
      } else {
        var j := i;
        while j < |owner| && owner[j] == 0
          invariant i <= j <= |owner| && forall k | i <= k < j :: owner[k] == 0
          invariant Count(owner[..j], 1) == Count(owner[..i], 1) && Count(owner[..j], 2) == Count(owner[..i], 2)
        {
          assert owner[..j + 1][..j] == owner[..j];
          j := j + 1;
        }
        AddGap(gaps, owner, origin, i, j);
        gaps := gaps + [Range(origin + i, origin + j - 1)];
        i := j;
      }
    }
    assert owner[..|owner|] == owner;
    AllCovered(gaps, owner, origin);
    c := Coverage(code, data, gaps);
  }

  lemma AllCovered(gaps: seq<Range>, owner: seq<int>, origin: Word)
    requires CoveredTo(gaps, owner, origin, |owner|)
    ensures GapsOk(gaps, owner, origin)
  {
  }

  lemma NoGaps(owner: seq<int>, origin: Word)
    ensures CoveredTo([], owner, origin, 0)
  {
  }

  lemma SkipOwned(gaps: seq<Range>, owner: seq<int>, origin: Word, i: nat)
    requires i < |owner| && CoveredTo(gaps, owner, origin, i) && owner[i] != 0
    ensures CoveredTo(gaps, owner, origin, i + 1)
  {
    if InRanges(gaps, origin + i) {
      GapHolds(gaps, origin + i);
    }
  }
}
