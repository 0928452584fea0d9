/** The exporter's fields and passes. */
module ExporterClass {
  import opened Words
  import opened Sorting
  import opened Analyzer
  import opened Mnemonics
  import opened Literals
  import opened Asm
  import L = Layout
  import opened Ownership
  import opened Listing
  import opened Exporter

  // ---- items of the layout ----

  function CodeItem(i: Instr): L.Item { L.Item(i.address, i.address + i.size - 1, L.Code(i), "") }

  function DataItem(u: DataUnit): L.Item { L.Item(u.address, u.address + u.size - 1, L.Data, u.name) }

  function GapItem(g: Range): L.Item { L.Item(g.start, g.end, L.Gap, GapLabel(g.start)) }

  function CodeItems(instrs: seq<Instr>): seq<L.Item>
  {
    seq(|instrs|, k requires 0 <= k < |instrs| => CodeItem(instrs[k]))
  }

  function DataItems(units: seq<DataUnit>): seq<L.Item>
  {
    seq(|units|, k requires 0 <= k < |units| => DataItem(units[k]))
  }

  function GapItems(gaps: seq<Range>): seq<L.Item>
  {
    seq(|gaps|, k requires 0 <= k < |gaps| => GapItem(gaps[k]))
  }

  /** What the passes before the emitter establish. */
  ghost predicate Prepared(c: Context, instrs: seq<Instr>, units: seq<DataUnit>, owner: seq<int>, gaps: seq<Range>)
  {
    && End(c) <= 65536 && |owner| == |c.rom|
    && Decoded(ImageOf(c.rom, c.origin), instrs) && (forall i <- instrs :: InWindow(i, c.origin, End(c)))
    && OwnerIs(owner, c.origin, instrs, units) && UnitsOk(units, instrs, c.objects, c.origin, End(c))
    && GapsOk(gaps, owner, c.origin)
  }

  lemma ApartConcat(a: seq<L.Item>, b: seq<L.Item>)
    requires L.PairwiseApart(a) && L.PairwiseApart(b) && forall x <- a, y <- b :: L.Apart(x, y)
    ensures L.PairwiseApart(a + b)
  {
    hide L.Apart;
    forall i, j | 0 <= i < j < |a + b| ensures L.Apart((a + b)[i], (a + b)[j]) {
      if i < |a| <= j {
        assert a[i] in a && b[j - |a|] in b;
      }
    }
  }

  lemma CodeApart(c: Context, instrs: seq<Instr>)
    requires Decoded(ImageOf(c.rom, c.origin), instrs)
    ensures L.PairwiseApart(CodeItems(instrs))
  {
    hide Disassemble, ImageOf;
  }

  lemma DataApart(units: seq<DataUnit>, instrs: seq<Instr>, objects: seq<RdbObject>, origin: Word, end: int)
    requires UnitsOk(units, instrs, objects, origin, end)
    ensures L.PairwiseApart(DataItems(units))
  {
    hide Claims, UnitAt;
    forall i, j | 0 <= i < j < |units| ensures L.Apart(DataItem(units[i]), DataItem(units[j])) {
      assert units[i] in units && units[j] in units;
    }
  }

  lemma GapApart(gaps: seq<Range>)
    requires Separated(gaps)
    ensures L.PairwiseApart(GapItems(gaps))
  {
    forall i, j | 0 <= i < j < |gaps| ensures L.Apart(GapItem(gaps[i]), GapItem(gaps[j])) {
    }
  }

  lemma CodeDataApart(c: Context, instrs: seq<Instr>, units: seq<DataUnit>, i: Instr, u: DataUnit)
    requires UnitsOk(units, instrs, c.objects, c.origin, End(c)) && i in instrs && u in units && i.size >= 1
    ensures L.Apart(CodeItem(i), DataItem(u))
  {
    hide Claims;
    var b := if i.address < u.address then u.address else i.address;
    assert i.address <= b < i.address + i.size ==> Covers(instrs, b);
    assert u.address <= b < u.address + u.size ==> UnitAt(units, b);
  }

  lemma GapFree(owner: seq<int>, origin: Word, instrs: seq<Instr>, units: seq<DataUnit>, gaps: seq<Range>, g: Range,
                b: int)
    requires OwnerIs(owner, origin, instrs, units) && GapsOk(gaps, owner, origin) && g in gaps && g.start <= b <= g.end
    ensures !Covers(instrs, b) && !UnitAt(units, b)
  {
    hide Covers, UnitAt, Separated;
    var k := b - origin;
    assert origin <= g.start && g.end < origin + |owner|;
    assert InRanges(gaps, origin + k) && owner[k] == 0;
  }

  lemma GapOthersApart(owner: seq<int>, origin: Word, instrs: seq<Instr>, units: seq<DataUnit>, gaps: seq<Range>,
                       g: Range)
    requires OwnerIs(owner, origin, instrs, units) && GapsOk(gaps, owner, origin) && g in gaps
    ensures forall i <- instrs | i.size >= 1 :: L.Apart(CodeItem(i), GapItem(g))
    ensures forall u <- units | u.size >= 1 :: L.Apart(DataItem(u), GapItem(g))
  {
    var k :| 0 <= k < |gaps| && gaps[k] == g;
    assert g.start <= g.end;
    hide OwnerIs, GapsOk, GapLabel;
    forall i <- instrs | i.size >= 1 ensures L.Apart(CodeItem(i), GapItem(g)) {
      var b := if i.address < g.start then g.start else i.address;
      assert i.address <= b < i.address + i.size ==> Covers(instrs, b);
      if b <= g.end {
        GapFree(owner, origin, instrs, units, gaps, g, b);
      }
    }
    forall u <- units | u.size >= 1 ensures L.Apart(DataItem(u), GapItem(g)) {
      var b := if u.address < g.start then g.start else u.address;
      assert u.address <= b < u.address + u.size ==> UnitAt(units, b);
      if b <= g.end {
        GapFree(owner, origin, instrs, units, gaps, g, b);
      }
    }
  }

  function Items(instrs: seq<Instr>, units: seq<DataUnit>, gaps: seq<Range>): seq<L.Item>
  {
    CodeItems(instrs) + DataItems(units) + GapItems(gaps)
  }

  lemma ItemsAre(instrs: seq<Instr>, units: seq<DataUnit>, gaps: seq<Range>, x: L.Item)
    ensures x in CodeItems(instrs) <==> exists i <- instrs :: x == CodeItem(i)
    ensures x in DataItems(units) <==> exists u <- units :: x == DataItem(u)
    ensures x in GapItems(gaps) <==> exists g <- gaps :: x == GapItem(g)
    ensures x in Items(instrs, units, gaps) <==>
              x in CodeItems(instrs) || x in DataItems(units) || x in GapItems(gaps)
  {
    hide CodeItem, DataItem, GapItem;
    if i :| i in instrs && x == CodeItem(i) {
      var k :| 0 <= k < |instrs| && instrs[k] == i;
      assert CodeItems(instrs)[k] == x;
    }
    if u :| u in units && x == DataItem(u) {
      var k :| 0 <= k < |units| && units[k] == u;
      assert DataItems(units)[k] == x;
    }
    if g :| g in gaps && x == GapItem(g) {
      var k :| 0 <= k < |gaps| && gaps[k] == g;
      assert GapItems(gaps)[k] == x;
    }
  }

  /** Code, data and gap items: only instructions may overlap. */
  lemma ItemsApart(c: Context, instrs: seq<Instr>, units: seq<DataUnit>, owner: seq<int>, gaps: seq<Range>)
    requires Prepared(c, instrs, units, owner, gaps)
    ensures L.PairwiseApart(Items(instrs, units, gaps))
  {
    CodeApart(c, instrs);
    DataApart(units, instrs, c.objects, c.origin, End(c));
    GapApart(gaps);
    var A, B, C := CodeItems(instrs), DataItems(units), GapItems(gaps);
    assert (forall i <- instrs :: i.size >= 1) && forall u <- units :: u.size >= 1;
    hide Decoded, OwnerIs, GapsOk, UnitsOk, InWindow, CodeItem, DataItem, GapItem, CodeItems, DataItems, GapItems,
      L.Apart, L.PairwiseApart;
    forall x <- A, y <- B ensures L.Apart(x, y) {
      ItemsAre(instrs, units, gaps, x);
      ItemsAre(instrs, units, gaps, y);
      var i :| i in instrs && x == CodeItem(i);
      var u :| u in units && y == DataItem(u);
      CodeDataApart(c, instrs, units, i, u);
    }
    ApartConcat(A, B);
    forall x <- A + B, y <- C ensures L.Apart(x, y) {
      ItemsAre(instrs, units, gaps, x);
      ItemsAre(instrs, units, gaps, y);
      var g :| g in gaps && y == GapItem(g);
      GapOthersApart(owner, c.origin, instrs, units, gaps, g);
    }
    ApartConcat(A + B, C);
  }

  lemma ItemGenuine(c: Context, instrs: seq<Instr>, units: seq<DataUnit>, owner: seq<int>, gaps: seq<Range>, x: L.Item)
    requires Prepared(c, instrs, units, owner, gaps) && x in Items(instrs, units, gaps)
    ensures Genuine(c, x) && L.Within(x, c.origin, End(c)) && (x.kind.Code? ==> x.end <= x.start + 2)
  {
    ItemsAre(instrs, units, gaps, x);
    hide Items, CodeItems, DataItems, GapItems, Disassemble, ImageOf, GapLabel, OwnerIs, Covers, UnitAt, SanitizeLabel;
    if i :| i in instrs && x == CodeItem(i) {
    } else if u :| u in units && x == DataItem(u) {
    } else {
      var g :| g in gaps && x == GapItem(g);
      var k :| 0 <= k < |gaps| && gaps[k] == g;
    }
  }

  lemma ItemsFill(c: Context, instrs: seq<Instr>, units: seq<DataUnit>, owner: seq<int>, gaps: seq<Range>)
    requires Prepared(c, instrs, units, owner, gaps)
    ensures L.Fills(Items(instrs, units, gaps), c.origin, End(c)) && L.ShortCode(Items(instrs, units, gaps))
  {
    var items := Items(instrs, units, gaps);
    forall x <- items ensures L.Within(x, c.origin, End(c)) && (x.kind.Code? ==> x.end <= x.start + 2) {
      ItemGenuine(c, instrs, units, owner, gaps, x);
    }
    hide Items, CodeItems, DataItems, GapItems, Decoded, UnitsOk, Separated, L.Within;
    forall b | c.origin <= b < End(c) ensures L.Covered(items, b) {
      var k := b - c.origin;
      assert b == c.origin + k;
      if Covers(instrs, b) {
        var i :| i in instrs && i.address <= b < i.address + i.size;
        ItemsAre(instrs, units, gaps, CodeItem(i));
      } else if UnitAt(units, b) {
        var u :| u in units && u.address <= b < u.address + u.size;
        ItemsAre(instrs, units, gaps, DataItem(u));
      } else {
        assert owner[k] == 0;
        GapHolds(gaps, b);
        var g :| g in gaps && g.start <= b <= g.end;
        ItemsAre(instrs, units, gaps, GapItem(g));
      }
    }
  }

  // ---- the exact condition, said of the instructions ----

  /** Two instructions of the window overlap without one lying inside the other. */
  ghost predicate PartialOverlap(instrs: seq<Instr>)
  {
    exists i, j | i in instrs && j in instrs ::
      i.address < j.address < i.address + i.size < j.address + j.size
  }

  ghost predicate NestedIn(instrs: seq<Instr>, i: Instr)
  {
    exists j <- instrs :: j.address < i.address && i.address + i.size <= j.address + j.size
  }

  /** An undocumented NOP that is not hidden inside another instruction. */
  ghost predicate AliasShows(instrs: seq<Instr>)
  {
    exists i <- instrs :: Alias(i.opcode) && !NestedIn(instrs, i)
  }

  lemma MembersApart(items: seq<L.Item>, x: L.Item, y: L.Item)
    requires L.PairwiseApart(items) && x in items && y in items && x != y
    ensures L.Apart(x, y)
  {
    var i :| 0 <= i < |items| && items[i] == x;
    var j :| 0 <= j < |items| && items[j] == y;
    assert if i < j then L.Apart(items[i], items[j]) else L.Apart(items[j], items[i]);
  }

  lemma PartialIff(c: Context, instrs: seq<Instr>, units: seq<DataUnit>, owner: seq<int>, gaps: seq<Range>)
    requires Prepared(c, instrs, units, owner, gaps)
    ensures L.NoPartial(Items(instrs, units, gaps)) <==> !PartialOverlap(instrs)
  {
    var items := Items(instrs, units, gaps);
    ItemsApart(c, instrs, units, owner, gaps);
    hide Prepared, Items, CodeItems, DataItems, GapItems, L.PairwiseApart;
    if PartialOverlap(instrs) {
      var i, j :| i in instrs && j in instrs && i.address < j.address < i.address + i.size < j.address + j.size;
      ItemsAre(instrs, units, gaps, CodeItem(i));
      ItemsAre(instrs, units, gaps, CodeItem(j));
      assert L.Partial(CodeItem(i), CodeItem(j));
    }
    if !L.NoPartial(items) {
      var x, y :| x in items && y in items && L.Partial(x, y);
      MembersApart(items, x, y);
      ItemsAre(instrs, units, gaps, x);
      ItemsAre(instrs, units, gaps, y);
      assert PartialOverlap(instrs);
    }
  }

  lemma NestedIff(c: Context, instrs: seq<Instr>, units: seq<DataUnit>, owner: seq<int>, gaps: seq<Range>, i: Instr)
    requires Prepared(c, instrs, units, owner, gaps) && i in instrs
    ensures L.Nested(Items(instrs, units, gaps), CodeItem(i)) <==> NestedIn(instrs, i)
  {
    var items := Items(instrs, units, gaps);
    var x := CodeItem(i);
    ItemsApart(c, instrs, units, owner, gaps);
    ItemsAre(instrs, units, gaps, x);
    assert InWindow(i, c.origin, End(c));
    hide Prepared, Items, CodeItems, DataItems, GapItems, L.PairwiseApart;
    if NestedIn(instrs, i) {
      var j :| j in instrs && j.address < i.address && i.address + i.size <= j.address + j.size;
      ItemsAre(instrs, units, gaps, CodeItem(j));
    }
    if L.Nested(items, x) {
      var y :| y in items && y.start < x.start && x.end <= y.end;
      MembersApart(items, x, y);
      ItemsAre(instrs, units, gaps, y);
    }
  }

  /** The walk prints the instructions that are not nested, and all data and gap items. */
  lemma PrintedAre(c: Context, instrs: seq<Instr>, units: seq<DataUnit>, owner: seq<int>, gaps: seq<Range>,
                   sorted: seq<L.Item>)
    requires Prepared(c, instrs, units, owner, gaps) && L.Arranged(sorted, c.origin, End(c))
    requires multiset(sorted) == multiset(Items(instrs, units, gaps))
    ensures var placed := L.Walk(sorted, c.origin);
            && (forall p <- placed :: p.item in Items(instrs, units, gaps))
            && (forall i <- instrs :: L.Appears(placed, CodeItem(i)) <==> !NestedIn(instrs, i))
            && (forall u <- units :: L.Appears(placed, DataItem(u)))
            && (forall g <- gaps :: L.Appears(placed, GapItem(g)))
  {
    var items := Items(instrs, units, gaps);
    var placed := L.Walk(sorted, c.origin);
    SameMembers(items, sorted);
    WalkChained(sorted, c.origin);
    ItemsApart(c, instrs, units, owner, gaps);
    hide Prepared, Items, CodeItems, DataItems, GapItems, L.Arranged, L.Walk, Chained, GapItem, NestedIn, L.Nested,
      L.Appears, L.PairwiseApart;
    forall x <- items ensures L.Appears(placed, x) <==> !L.Nested(items, x) {
      var j :| 0 <= j < |sorted| && sorted[j] == x;
      assert sorted[0..] == sorted;
      L.Emitted(sorted, 0, c.origin, c.origin, End(c), j);
      SameNested(items, sorted, x);
    }
    forall i <- instrs ensures L.Appears(placed, CodeItem(i)) <==> !NestedIn(instrs, i) {
      ItemsAre(instrs, units, gaps, CodeItem(i));
      NestedIff(c, instrs, units, owner, gaps, i);
    }
    forall u <- units ensures L.Appears(placed, DataItem(u)) {
      ItemsAre(instrs, units, gaps, DataItem(u));
      ItemGenuine(c, instrs, units, owner, gaps, DataItem(u));
      DataNotNested(items, DataItem(u));
    }
    forall g <- gaps ensures L.Appears(placed, GapItem(g)) {
      ItemsAre(instrs, units, gaps, GapItem(g));
      ItemGenuine(c, instrs, units, owner, gaps, GapItem(g));
      GapIsGap(g);
      DataNotNested(items, GapItem(g));
    }
  }

  lemma GapIsGap(g: Range)
    ensures GapItem(g).kind.Gap?
  {
  }

  lemma SameNested(items: seq<L.Item>, sorted: seq<L.Item>, x: L.Item)
    requires forall y :: y in items <==> y in sorted
    ensures L.Nested(items, x) <==> L.Nested(sorted, x)
  {
  }

  lemma DataNotNested(items: seq<L.Item>, x: L.Item)
    requires L.PairwiseApart(items) && x in items && !x.kind.Code? && x.start <= x.end
    ensures !L.Nested(items, x)
  {
    hide L.PairwiseApart;
    if L.Nested(items, x) {
      var y :| y in items && y.start < x.start && x.end <= y.end;
      MembersApart(items, x, y);
    }
  }

  lemma AliasIff(c: Context, instrs: seq<Instr>, units: seq<DataUnit>, owner: seq<int>, gaps: seq<Range>,
                 sorted: seq<L.Item>)
    requires Prepared(c, instrs, units, owner, gaps) && L.Arranged(sorted, c.origin, End(c))
    requires multiset(sorted) == multiset(Items(instrs, units, gaps))
    ensures NoAlias(L.Walk(sorted, c.origin)) <==> !AliasShows(instrs)
  {
    var placed := L.Walk(sorted, c.origin);
    PrintedAre(c, instrs, units, owner, gaps, sorted);
    hide Prepared, Items, CodeItems, DataItems, GapItems, L.Arranged, L.Walk;
    if AliasShows(instrs) {
      var i :| i in instrs && Alias(i.opcode) && !NestedIn(instrs, i);
      assert L.Appears(placed, CodeItem(i));
      var p :| p in placed && p.item == CodeItem(i);
      assert IsAlias(p.item);
    }
    if !NoAlias(placed) {
      var p :| p in placed && IsAlias(p.item);
      ItemsAre(instrs, units, gaps, p.item);
      var i :| i in instrs && p.item == CodeItem(i);
      assert L.Appears(placed, CodeItem(i));
      assert Alias(i.opcode) && !NestedIn(instrs, i);
    }
  }

  // ---- the names, said of the passes' results ----

  /** A maximal run of unowned bytes starts here. */
  ghost predicate GapStart(owner: seq<int>, origin: Word, a: int)
  {
    var k := a - origin;
    0 <= k < |owner| && owner[k] == 0 && (k > 0 ==> owner[k - 1] != 0)
  }

  /** The listing has the label n at address a: of an instruction that is not nested, a data unit or a gap. */
  ghost predicate LabelHere(c: Context, instrs: seq<Instr>, units: seq<DataUnit>, owner: seq<int>, n: string, a: int)
  {
    && n != "" && 0 <= a < 65536
    && (|| (exists i <- instrs :: i.address == a && !NestedIn(instrs, i) && WorthPrinting(c, a) && Resolve(c, a) == n)
        || (exists u <- units :: u.address == a && u.name == n)
        || (GapStart(owner, c.origin, a) && GapLabel(a) == n))
  }

  /** Two labels have the same name. */
  ghost predicate LabelsClash(c: Context, instrs: seq<Instr>, units: seq<DataUnit>, owner: seq<int>)
  {
    exists n, a, b :: a < b && LabelHere(c, instrs, units, owner, n, a) && LabelHere(c, instrs, units, owner, n, b)
  }

  ghost predicate Labelled(c: Context, instrs: seq<Instr>, units: seq<DataUnit>, owner: seq<int>, n: string)
  {
    exists a :: LabelHere(c, instrs, units, owner, n, a)
  }

  /** The name n means v: as a label, or as the least address of the name when no label has it. */
  ghost predicate Means(c: Context, instrs: seq<Instr>, units: seq<DataUnit>, owner: seq<int>, n: string, v: int)
  {
    || LabelHere(c, instrs, units, owner, n, v)
    || (!Labelled(c, instrs, units, owner, n) && LeastOf(c.names, n, v))
  }

  /** An instruction that is not nested is printed with a name that means another address. */
  ghost predicate Misnamed(c: Context, instrs: seq<Instr>, units: seq<DataUnit>, owner: seq<int>)
  {
    var img := ImageOf(c.rom, c.origin);
    exists i <- instrs ::
      && !NestedIn(instrs, i) && PrintsName(c, img, i)
      && !(Shown(img, i) in c.names && Means(c, instrs, units, owner, c.names[Shown(img, i)], Shown(img, i)))
  }

  lemma GapStarts(gaps: seq<Range>, owner: seq<int>, origin: Word, a: int)
    requires GapsOk(gaps, owner, origin)
    ensures GapStart(owner, origin, a) <==> exists g <- gaps :: g.start == a
  {
    var k := a - origin;
    if GapStart(owner, origin, a) {
      assert InRanges(gaps, origin + k);
      GapHolds(gaps, origin + k);
      var g :| g in gaps && g.start <= a <= g.end;
      if g.start < a {
        GapAt(gaps, g, origin + (k - 1));
      }
    }
    if g :| g in gaps && g.start == a {
      GapIsRun(gaps, g);
      GapAt(gaps, g, origin + k);
      BeforeGap(gaps, g);
      assert k > 0 ==> origin + (k - 1) == g.start - 1;
    }
  }

  lemma GapIsRun(gaps: seq<Range>, g: Range)
    requires Separated(gaps) && g in gaps
    ensures g.start <= g.end
  {
  }

  lemma BeforeGap(gaps: seq<Range>, g: Range)
    requires Separated(gaps) && g in gaps
    ensures !InRanges(gaps, g.start - 1)
  {
    forall h <- gaps ensures !(h.start <= g.start - 1 <= h.end) {
      TwoGaps(gaps, g, h);
    }
  }

  lemma TwoGaps(gaps: seq<Range>, g: Range, h: Range)
    requires Separated(gaps) && g in gaps && h in gaps
    ensures g == h || g.end + 1 < h.start || h.end + 1 < g.start
  {
    var i :| 0 <= i < |gaps| && gaps[i] == g;
    var j :| 0 <= j < |gaps| && gaps[j] == h;
  }

  lemma GapAt(gaps: seq<Range>, g: Range, b: int)
    requires g in gaps && g.start <= b <= g.end
    ensures InRanges(gaps, b)
  {
  }

  /** The labels the walk prints are those. */
  lemma LabelsAre(c: Context, instrs: seq<Instr>, units: seq<DataUnit>, owner: seq<int>, gaps: seq<Range>,
                  sorted: seq<L.Item>, n: string, a: int)
    requires Prepared(c, instrs, units, owner, gaps) && L.Arranged(sorted, c.origin, End(c))
    requires multiset(sorted) == multiset(Items(instrs, units, gaps))
    ensures LabelPlaced(c, L.Walk(sorted, c.origin), n, a) <==> LabelHere(c, instrs, units, owner, n, a)
  {
    var placed := L.Walk(sorted, c.origin);
    PrintedAre(c, instrs, units, owner, gaps, sorted);
    GapStarts(gaps, owner, c.origin, a);
    hide *;
    if LabelPlaced(c, placed, n, a) {
      PlacedIsHere(c, instrs, units, owner, gaps, placed, n, a);
    }
    if LabelHere(c, instrs, units, owner, n, a) {
      HereIsPlaced(c, instrs, units, owner, gaps, placed, n, a);
    }
  }

  lemma PlacedIsHere(c: Context, instrs: seq<Instr>, units: seq<DataUnit>, owner: seq<int>, gaps: seq<Range>,
                     placed: seq<L.Placed>, n: string, a: int)
    requires forall p <- placed :: p.item in Items(instrs, units, gaps)
    requires forall i <- instrs :: L.Appears(placed, CodeItem(i)) <==> !NestedIn(instrs, i)
    requires GapStart(owner, c.origin, a) <==> exists g <- gaps :: g.start == a
    requires LabelPlaced(c, placed, n, a)
    ensures LabelHere(c, instrs, units, owner, n, a)
  {
    hide Items, CodeItems, DataItems, GapItems, NestedIn, WorthPrinting, Resolve, GapLabel, GapStart;
    var p :| p in placed && LabelOf(c, p.item) == n && p.item.start == a;
    ItemsAre(instrs, units, gaps, p.item);
    if i :| i in instrs && p.item == CodeItem(i) {
      assert L.Appears(placed, CodeItem(i));
    }
  }

  lemma HereIsPlaced(c: Context, instrs: seq<Instr>, units: seq<DataUnit>, owner: seq<int>, gaps: seq<Range>,
                     placed: seq<L.Placed>, n: string, a: int)
    requires forall i <- instrs :: L.Appears(placed, CodeItem(i)) <==> !NestedIn(instrs, i)
    requires (forall u <- units :: L.Appears(placed, DataItem(u))) && forall g <- gaps :: L.Appears(placed, GapItem(g))
    requires GapStart(owner, c.origin, a) <==> exists g <- gaps :: g.start == a
    requires LabelHere(c, instrs, units, owner, n, a)
    ensures LabelPlaced(c, placed, n, a)
  {
    hide NestedIn, WorthPrinting, Resolve, GapLabel, GapStart;
    var x: L.Item;
    if i :| i in instrs && i.address == a && !NestedIn(instrs, i) && WorthPrinting(c, a) && Resolve(c, a) == n {
      x := CodeItem(i);
    } else if u :| u in units && u.address == a && u.name == n {
      x := DataItem(u);
    } else {
      var g :| g in gaps && g.start == a;
      x := GapItem(g);
    }
    assert L.Appears(placed, x);
    var p :| p in placed && p.item == x;
    assert LabelOf(c, p.item) == n;
  }

  lemma NamesIff(c: Context, instrs: seq<Instr>, units: seq<DataUnit>, owner: seq<int>, gaps: seq<Range>,
                 sorted: seq<L.Item>)
    requires Prepared(c, instrs, units, owner, gaps) && L.Arranged(sorted, c.origin, End(c))
    requires multiset(sorted) == multiset(Items(instrs, units, gaps))
    ensures var placed := L.Walk(sorted, c.origin);
            && (LabelsApart(c, placed) <==> !LabelsClash(c, instrs, units, owner))
            && (NamesServe(c, placed) <==> !Misnamed(c, instrs, units, owner))
  {
    var placed := L.Walk(sorted, c.origin);
    PrintedAre(c, instrs, units, owner, gaps, sorted);
    forall n, a ensures LabelPlaced(c, placed, n, a) <==> LabelHere(c, instrs, units, owner, n, a) {
      LabelsAre(c, instrs, units, owner, gaps, sorted, n, a);
    }
    hide Prepared, Items, CodeItems, DataItems, GapItems, L.Arranged, L.Walk, NestedIn, LabelHere, LabelPlaced, LeastOf,
      PrintsName, Shown, ImageOf;
    assert LabelsApart(c, placed) <==> !LabelsClash(c, instrs, units, owner) by {
      if !LabelsApart(c, placed) {
        var n, a, b :| LabelPlaced(c, placed, n, a) && LabelPlaced(c, placed, n, b) && a != b;
        assert LabelHere(c, instrs, units, owner, n, if a < b then a else b);
      }
    }
    forall n, v ensures StandsFor(c, placed, n, v) <==> Means(c, instrs, units, owner, n, v) {
      assert HasLabel(c, placed, n) <==> Labelled(c, instrs, units, owner, n);
    }
    hide StandsFor, Means, L.Appears;
    ServesIff(c, instrs, units, owner, gaps, placed);
  }

  lemma ServesIff(c: Context, instrs: seq<Instr>, units: seq<DataUnit>, owner: seq<int>, gaps: seq<Range>,
                  placed: seq<L.Placed>)
    requires forall p <- placed :: p.item in Items(instrs, units, gaps)
    requires forall i <- instrs :: L.Appears(placed, CodeItem(i)) <==> !NestedIn(instrs, i)
    requires forall n, v :: StandsFor(c, placed, n, v) <==> Means(c, instrs, units, owner, n, v)
    ensures NamesServe(c, placed) <==> !Misnamed(c, instrs, units, owner)
  {
    hide Items, CodeItems, DataItems, GapItems, NestedIn, StandsFor, Means, PrintsName, Shown, ImageOf;
    var img := ImageOf(c.rom, c.origin);
    if !NamesServe(c, placed) {
      var p :| p in placed && p.item.kind.Code? && PrintsName(c, img, p.item.kind.instr)
               && !(Shown(img, p.item.kind.instr) in c.names
                    && StandsFor(c, placed, c.names[Shown(img, p.item.kind.instr)], Shown(img, p.item.kind.instr)));
      ItemsAre(instrs, units, gaps, p.item);
      var i :| i in instrs && p.item == CodeItem(i);
      assert L.Appears(placed, CodeItem(i));
    }
    if Misnamed(c, instrs, units, owner) {
      var i :| i in instrs && !NestedIn(instrs, i) && PrintsName(c, img, i)
               && !(Shown(img, i) in c.names && Means(c, instrs, units, owner, c.names[Shown(img, i)], Shown(img, i)));
      assert L.Appears(placed, CodeItem(i));
      var p :| p in placed && p.item == CodeItem(i);
    }
  }

  lemma LabelClaimed(c: Context, instrs: seq<Instr>, units: seq<DataUnit>, owner: seq<int>, n: string, a: int)
    requires NamesClaimed(c) && UnitsOk(units, instrs, c.objects, c.origin, End(c))
    requires LabelHere(c, instrs, units, owner, n, a)
    ensures Claims(c.objects, n, a)
  {
    hide NestedIn, WorthPrinting, GapStart, UnitAt, Covers, SanitizeLabel;
  }

  /** Usable names neither clash nor mislead. */
  lemma UsableNames(c: Context, instrs: seq<Instr>, units: seq<DataUnit>, owner: seq<int>)
    requires NamesClaimed(c) && UnitsOk(units, instrs, c.objects, c.origin, End(c)) && NamesUsable(c.objects)
    ensures !LabelsClash(c, instrs, units, owner) && !Misnamed(c, instrs, units, owner)
  {
    hide NestedIn, LabelHere, UnitsOk, NamesUsable, Claims, PrintsName, Shown, ImageOf;
    if n, a, b :| a < b && LabelHere(c, instrs, units, owner, n, a) && LabelHere(c, instrs, units, owner, n, b) {
      LabelClaimed(c, instrs, units, owner, n, a);
      LabelClaimed(c, instrs, units, owner, n, b);
      ClaimsUnique(c.objects, n, a, b);
    }
    var img := ImageOf(c.rom, c.origin);
    forall i <- instrs | PrintsName(c, img, i)
      ensures Shown(img, i) in c.names && Means(c, instrs, units, owner, c.names[Shown(img, i)], Shown(img, i))
    {
      NameShown(c, img, i);
      UsableMeans(c, instrs, units, owner, Shown(img, i));
    }
  }

  lemma NameShown(c: Context, img: Image, i: Instr)
    ensures PrintsName(c, img, i) ==> Shown(img, i) in c.names
  {
    hide EmitInstruction, Shown, Denoted, Encode, Readable, SizeOf, BytesOf, ReadText, PrintsDb;
    if PrintsDb(i.opcode) {
      EmittedDb(c, img, i, map[]);
    } else {
      EmittedOp(c, img, i, map[]);
    }
  }

  lemma UsableMeans(c: Context, instrs: seq<Instr>, units: seq<DataUnit>, owner: seq<int>, v: Word)
    requires NamesClaimed(c) && UnitsOk(units, instrs, c.objects, c.origin, End(c)) && NamesUsable(c.objects)
    requires v in c.names
    ensures Means(c, instrs, units, owner, c.names[v], v)
  {
    hide LabelHere, UnitsOk, NamesUsable, Claims;
    if a :| LabelHere(c, instrs, units, owner, c.names[v], a) {
      LabelClaimed(c, instrs, units, owner, c.names[v], a);
      ClaimsUnique(c.objects, c.names[v], a, v);
    }
    forall b <- c.names | b < v ensures c.names[b] != c.names[v] {
      if c.names[b] == c.names[v] {
        ClaimsUnique(c.objects, c.names[v], b, v);
      }
    }
  }

  /** Sorted, the items fill the window; the walk over them pads nothing and ends at its end. */
  lemma SortedFits(c: Context, instrs: seq<Instr>, units: seq<DataUnit>, owner: seq<int>, gaps: seq<Range>,
                   sorted: seq<L.Item>)
    requires Prepared(c, instrs, units, owner, gaps)
    requires SortedBy(sorted, L.ByStart) && multiset(sorted) == multiset(Items(instrs, units, gaps))
    ensures L.Arranged(sorted, c.origin, End(c)) && L.ShortCode(sorted)
    ensures forall p <- L.Walk(sorted, c.origin) :: p.item.start <= p.at
    ensures L.FinalPc(sorted, c.origin) == End(c)
    ensures forall x <- sorted :: L.Within(x, c.origin, End(c))
  {
    var items := Items(instrs, units, gaps);
    ItemsApart(c, instrs, units, owner, gaps);
    ItemsFill(c, instrs, units, owner, gaps);
    L.SortArranges(items, sorted, c.origin, End(c));
    SameMembers(items, sorted);
    hide Items, Prepared, L.Walk, L.FinalPc;
    L.ExactIff(sorted, c.origin, End(c));
  }

  lemma {:induction false} NoPadding(c: Context, placed: seq<L.Placed>)
    requires AllWithin(c, placed) && End(c) <= 65536 && forall p <- placed :: p.item.start <= p.at
    ensures forall l <- Render(c, placed) :: !l.Defs?
  {
    hide LinesOf, L.Within, Render;
    if placed == [] {
      RenderNothing(c);
    } else {
      var p := placed[0];
      assert p in placed && forall q <- placed[1..] :: q in placed;
      NoPadding(c, placed[1..]);
      NoPaddingOf(c, p.item);
      assert Render(c, placed) == LinesOf(c, p.item) + Render(c, placed[1..]) by { RenderOne(c, placed); }
    }
  }

  lemma RenderOne(c: Context, placed: seq<L.Placed>)
    requires AllWithin(c, placed) && End(c) <= 65536 && placed != [] && placed[0].item.start <= placed[0].at
    requires L.Within(placed[0].item, c.origin, End(c)) && AllWithin(c, placed[1..])
    ensures Render(c, placed) == LinesOf(c, placed[0].item) + Render(c, placed[1..])
  {
    hide LinesOf;
  }

  lemma NoPaddingOf(c: Context, x: L.Item)
    requires L.Within(x, c.origin, End(c)) && End(c) <= 65536
    ensures forall l <- LinesOf(c, x) :: !l.Defs?
  {
    hide Rows, EmitInstruction, ImageOf, AddressLabel, Assemble, Size, Definitions;
    if x.kind.Code? {
      var l := EmitInstruction(c, ImageOf(c.rom, c.origin), x.kind.instr);
      OperandName(c, ImageOf(c.rom, c.origin), x.kind.instr);
      OnlyLabels(c, x.start);
      NoDefsIn(AddressLabel(c, x.start), [l]);
    } else {
      var rows := Rows(c.rom[x.start - c.origin..x.end + 1 - c.origin]);
      RowsAssemble(c.rom[x.start - c.origin..x.end + 1 - c.origin], map[], 0);
      NoDefsIn(if x.name != "" then [Asm.Label(x.name)] else [], rows);
    }
  }

  lemma NoDefsIn(a: seq<Line>, b: seq<Line>)
    requires (forall l <- a :: !l.Defs?) && forall l <- b :: !l.Defs?
    ensures forall l <- a + b :: !l.Defs?
  {
  }

  lemma OnlyLabels(c: Context, a: Word)
    ensures forall l <- AddressLabel(c, a) :: l.Label?
  {
    hide WorthPrinting;
  }

  /** From what the passes prepared: the listing assembles to the ROM if and only if no two instructions of the
      window overlap partially, no undocumented NOP shows, no two labels clash and no operand is misnamed. */
  lemma ExportMeaning(c: Context, instrs: seq<Instr>, units: seq<DataUnit>, owner: seq<int>, gaps: seq<Range>,
                      sorted: seq<L.Item>, eqs: seq<Line>)
    requires Prepared(c, instrs, units, owner, gaps) && NamesClaimed(c)
    requires SortedBy(sorted, L.ByStart) && multiset(sorted) == multiset(Items(instrs, units, gaps))
    requires AllWithin(c, L.Walk(sorted, c.origin)) && Releases(c, Render(c, L.Walk(sorted, c.origin)), eqs)
    ensures AssemblesTo(Render(c, L.Walk(sorted, c.origin)) + eqs, c.origin, c.rom)
            <==> && !PartialOverlap(instrs) && !AliasShows(instrs)
                 && !LabelsClash(c, instrs, units, owner) && !Misnamed(c, instrs, units, owner)
    ensures NamesUsable(c.objects) && !PartialOverlap(instrs) ==>
              SymbolsCorrect(c, Render(c, L.Walk(sorted, c.origin)) + eqs)
  {
    var items := Items(instrs, units, gaps);
    var placed := L.Walk(sorted, c.origin);
    SortedFits(c, instrs, units, owner, gaps, sorted);
    SameMembers(items, sorted);
    assert L.NoPartial(sorted) <==> L.NoPartial(items);
    L.ExactIff(sorted, c.origin, End(c));
    PartialIff(c, instrs, units, owner, gaps);
    AliasIff(c, instrs, units, owner, gaps, sorted);
    NamesIff(c, instrs, units, owner, gaps, sorted);
    WalkChained(sorted, c.origin);
    assert End(c) <= 65536;
    forall p <- placed ensures Genuine(c, p.item) {
      ItemGenuine(c, instrs, units, owner, gaps, p.item);
    }
    hide Prepared, Items, L.Walk, Render, Releases, L.Arranged, L.Exact, NoAlias, AssemblesTo, Genuine, NamesUsable,
      NamesClaimed, PartialOverlap, AliasShows, Chained, SymbolsCorrect, LabelsApart, NamesServe, LabelsClash, Misnamed;
    ListingMeaning(c, placed, eqs);
  }

  // ---- the emitter ----

  lemma DefinedConcat(a: seq<Line>, b: seq<Line>)
    ensures forall n :: DefinedIn(a + b, n) <==> DefinedIn(a, n) || DefinedIn(b, n)
  {
    forall n ensures DefinedIn(a + b, n) <==> DefinedIn(a, n) || DefinedIn(b, n) {
      if l :| l in a && (l.Label? || l.Equ?) && l.name == n {
        assert l in a + b;
      }
      if l :| l in b && (l.Label? || l.Equ?) && l.name == n {
        assert l in a + b;
      }
    }
  }

  /** `defined` is the set of names the lines define. */
  ghost predicate Tracks(defined: set<string>, lines: seq<Line>)
  {
    forall n :: n in defined <==> DefinedIn(lines, n)
  }

  lemma TracksAppend(defined: set<string>, lines: seq<Line>, more: set<string>, ls: seq<Line>)
    requires Tracks(defined, lines) && Tracks(more, ls)
    ensures Tracks(defined + more, lines + ls)
  {
    hide DefinedIn;
    DefinedConcat(lines, ls);
  }

  lemma TracksPlain(ls: seq<Line>)
    requires forall l <- ls :: !l.Label? && !l.Equ?
    ensures Tracks({}, ls)
  {
  }

  lemma TracksLabel(n: string)
    ensures Tracks({n}, [Asm.Label(n)])
  {
    assert Asm.Label(n) in [Asm.Label(n)];
  }

  /** The label in front of an instruction, if it gets one. */
  method EmitAddressLabel(c: Context, a: Word) returns (lines: seq<Line>, names: set<string>)
    ensures lines == AddressLabel(c, a) && Tracks(names, lines)
  {
    hide Tracks, WorthPrinting;
    var name := Resolve(c, a);
    if name != "" && WorthPrinting(c, a) {
      TracksLabel(name);
      return [Asm.Label(name)], {name};
    }
    TracksPlain([]);
    return [], {};
  }

  /** One item, and the label it defines. */
  method EmitItem(c: Context, x: L.Item) returns (lines: seq<Line>, names: set<string>)
    requires L.Within(x, c.origin, End(c)) && End(c) <= 65536
    ensures lines == LinesOf(c, x) && Tracks(names, lines)
  {
    hide EmitInstruction, ImageOf, AddressLabel, Tracks, Rows, Assemble, Size, Definitions, Readable;
    if x.kind.Code? {
      lines, names := EmitAddressLabel(c, x.start);
      var op := EmitInstruction(c, ImageOf(c.rom, c.origin), x.kind.instr);
      OperandName(c, ImageOf(c.rom, c.origin), x.kind.instr);
      TracksPlain([op]);
      TracksAppend(names, lines, {}, [op]);
      assert names + {} == names;
      lines := lines + [op];
    } else {
      lines, names := [], {};
      TracksPlain([]);
      if x.name != "" {
        lines, names := [Asm.Label(x.name)], {x.name};
        TracksLabel(x.name);
      }
      var rows := EmitByteRows(c, x.start, x.end);
      RowsAssemble(c.rom[x.start - c.origin..x.end + 1 - c.origin], map[], 0);
      TracksPlain(rows);
      TracksAppend(names, lines, {}, rows);
      assert names + {} == names;
      lines := lines + rows;
    }
  }

  /** Defensive padding, then the item. */
  method EmitPlaced(c: Context, pc: int, x: L.Item) returns (lines: seq<Line>, names: set<string>)
    requires L.Within(x, c.origin, End(c)) && End(c) <= 65536
    ensures lines == PlacedLines(c, L.Placed(pc, x)) && Tracks(names, lines)
  {
    hide LinesOf, Tracks;
    lines, names := EmitItem(c, x);
    if x.start > pc {
      var pad := [Defs(x.start - pc)];
      TracksPlain(pad);
      TracksAppend({}, pad, names, lines);
      assert {} + names == names;
      lines := pad + lines;
    }
  }

  lemma PlacedWithin(c: Context, items: seq<L.Item>)
    requires forall x <- items :: L.Within(x, c.origin, End(c))
    ensures AllWithin(c, L.Walk(items, c.origin))
  {
    WalkChained(items, c.origin);
  }

  ghost predicate WalkWithin(c: Context, items: seq<L.Item>, k: nat, pc: int)
    requires k <= |items|
  {
    AllWithin(c, L.Walk(items[k..], pc))
  }

  lemma RenderWalkStep(c: Context, items: seq<L.Item>, k: nat, pc: int)
    requires k < |items| && End(c) <= 65536 && WalkWithin(c, items, k, pc) && L.Within(items[k], c.origin, End(c))
    ensures var next := if items[k].end < pc then pc else items[k].end + 1;
            && WalkWithin(c, items, k + 1, next)
            && Render(c, L.Walk(items[k..], pc))
               == (if items[k].end < pc then [] else PlacedLines(c, L.Placed(pc, items[k])))
                 + Render(c, L.Walk(items[k + 1..], next))
  {
    hide L.Walk, PlacedLines;
    L.WalkStep(items, k, pc);
    var next := if items[k].end < pc then pc else items[k].end + 1;
    if items[k].end >= pc {
      var p, rest := L.Placed(pc, items[k]), L.Walk(items[k + 1..], next);
      assert ([p] + rest)[1..] == rest;
      assert forall q <- rest :: q in [p] + rest;
    }
  }

  /** The walk over the sorted items. */
  method EmitItems(c: Context, items: seq<L.Item>) returns (lines: seq<Line>, defined: set<string>)
    requires End(c) <= 65536 && forall x <- items :: L.Within(x, c.origin, End(c))
    ensures AllWithin(c, L.Walk(items, c.origin))
    ensures lines == Render(c, L.Walk(items, c.origin))
                     + if L.FinalPc(items, c.origin) < End(c) then [Defs(End(c) - L.FinalPc(items, c.origin))] else []
    ensures Tracks(defined, lines)
  {
    hide L.Walk, L.FinalPc, PlacedLines, Render, Tracks, AllWithin, L.Within;
    PlacedWithin(c, items);
    ghost var all := Render(c, L.Walk(items, c.origin));
    ghost var last := L.FinalPc(items, c.origin);
    lines, defined := [], {};
    TracksPlain([]);
    var pc: int := c.origin;
    assert items[0..] == items;
    for k := 0 to |items|
      invariant WalkWithin(c, items, k, pc) && all == lines + Render(c, L.Walk(items[k..], pc))
      invariant last == L.FinalPc(items[k..], pc) && Tracks(defined, lines)
    {
      var it := items[k];
      assert it in items;
      RenderWalkStep(c, items, k, pc);
      L.WalkStep(items, k, pc);
      if it.end >= pc {
        var ls, names := EmitPlaced(c, pc, it);
        TracksAppend(defined, lines, names, ls);
        lines, defined, pc := lines + ls, defined + names, it.end + 1;
      }
    }
    L.WalkStep(items, |items|, pc);
    RenderNothing(c);
    assert lines == all;
    if pc < End(c) {
      TracksPlain([Defs(End(c) - pc)]);
      TracksAppend(defined, lines, {}, [Defs(End(c) - pc)]);
      assert defined + {} == defined;
      lines := lines + [Defs(End(c) - pc)];
    }
  }

  lemma RenderNothing(c: Context)
    requires End(c) <= 65536
    ensures Render(c, []) == []
  {
  }

  /** Names that no unit carries, in address order. */
  method EmitEqus(c: Context, body: seq<Line>, defined0: set<string>) returns (eqs: seq<Line>)
    requires Tracks(defined0, body)
    ensures Releases(c, body, eqs)
  {
    hide DefinedIn;
    eqs := [];
    var defined := defined0;
    assert body + [] == body;
    for a := 0 to 65536
      invariant AllEqu(c, eqs) && (forall l <- eqs :: !DefinedIn(body, l.name))
      invariant Tracks(defined, body + eqs)
      invariant forall l <- eqs :: l.name in defined
      invariant forall i, j | 0 <= i < j < |eqs| :: eqs[i].name != eqs[j].name
      invariant forall n <- c.names | n < a :: c.names[n] in defined
    {
      if a in c.names && c.names[a] !in defined {
        var l := Equ(c.names[a], WordLiteral(a, true));
        assert Least(c.names, a);
        assert Released(c, l);
        assert !DefinedIn(body, l.name) by { DefinedConcat(body, eqs); }
        assert forall n :: DefinedIn(body + (eqs + [l]), n) <==> DefinedIn(body + eqs, n) || n == l.name by {
          assert body + (eqs + [l]) == (body + eqs) + [l];
          DefinedConcat(body + eqs, [l]);
          EquDefines(l);
        }
        eqs := eqs + [l];
        defined := defined + {c.names[a]};
      }
    }
  }

  lemma EquDefines(l: Line)
    requires l.Equ?
    ensures forall n :: DefinedIn([l], n) <==> n == l.name
  {
    assert l in [l];
  }

  // ---- one database object ----

  /** End of an object in the window, in 32-bit arithmetic; no size means one byte. */
  function ObjectEnd(o: RdbObject, origin: Word, n: nat): int
  {
    var end := (o.address + if o.size == 0 then 1 else o.size) % 0x1_0000_0000;
    if (end - origin) % 0x1_0000_0000 > n then origin + n else end
  }

  lemma ObjectEndInside(o: RdbObject, origin: Word, n: nat)
    requires origin + n <= 65536 && origin <= o.address < origin + n
    ensures ObjectEnd(o, origin, n) <= origin + n
    ensures o.size < 0x1_0000_0000 - 65536 ==>
              ObjectEnd(o, origin, n) == if o.size == 0 then o.address + 1
                                         else if o.address + o.size > origin + n then origin + n else o.address + o.size
  {
    var end := (o.address + if o.size == 0 then 1 else o.size) % 0x1_0000_0000;
    if end < origin {
      assert (end - origin) % 0x1_0000_0000 == end - origin + 0x1_0000_0000;
    } else {
      assert (end - origin) % 0x1_0000_0000 == end - origin;
    }
  }

  function BaseName(o: RdbObject): (s: string)
    ensures s != ""
  {
    if o.name == "" then GenerateLabel(o.address) else SanitizeLabel(o.name)
  }

  lemma BaseNameClaims(objects: seq<RdbObject>, o: RdbObject, a: Word)
    requires o in objects
    ensures Claims(objects, BaseName(o), o.address) && Claims(objects, GenerateLabel(a), a)
  {
    hide GenerateLabel, SanitizeLabel, GapLabel;
  }

  predicate InRom(o: RdbObject, origin: Word, n: nat) { origin <= o.address && o.address - origin < n }

  /** Every byte of the object that lies in the window has an owner. */
  ghost predicate Attributed(o: RdbObject, origin: Word, owner: seq<int>)
  {
    !CodeLike(o) && InRom(o, origin, |owner|) ==>
      forall k | 0 <= k < |owner| && o.address <= origin + k < ObjectEnd(o, origin, |owner|) :: owner[k] != 0
  }

  /** The object asks for the byte at address a. */
  predicate Takes(o: RdbObject, origin: Word, n: nat, a: int)
  {
    !CodeLike(o) && InRom(o, origin, n) && o.address <= a < ObjectEnd(o, origin, n)
  }

  /** Neither code nor another object takes the first byte of the object. */
  ghost predicate Lone(objects: seq<RdbObject>, instrs: seq<Instr>, origin: Word, n: nat, o: RdbObject)
  {
    && Takes(o, origin, n, o.address) && !Covers(instrs, o.address)
    && forall p <- objects | p != o :: !Takes(p, origin, n, o.address)
  }

  /** A data unit carries the object's name at its address. */
  ghost predicate OwnName(units: seq<DataUnit>, o: RdbObject)
  {
    exists u <- units :: u.address == o.address && u.name == BaseName(o)
  }

  lemma OwnNameStays(units: seq<DataUnit>, units': seq<DataUnit>, o: RdbObject)
    requires OwnName(units, o) && units <= units'
    ensures OwnName(units', o)
  {
    var u :| u in units && u.address == o.address && u.name == BaseName(o);
    assert u in units';
  }

  lemma OwnNameLast(units: seq<DataUnit>, u: DataUnit, o: RdbObject)
    requires u.address == o.address && u.name == BaseName(o)
    ensures OwnName(units + [u], o)
  {
    assert u in units + [u];
  }

  /** Owned bytes are code or asked for by one of these objects. */
  ghost predicate TakenBy(owner: seq<int>, instrs: seq<Instr>, placed: seq<RdbObject>, origin: Word, n: nat)
  {
    forall k | 0 <= k < |owner| && owner[k] != 0 ::
      Covers(instrs, origin + k) || exists o <- placed :: Takes(o, origin, n, origin + k)
  }

  lemma TakenMore(owner: seq<int>, owner': seq<int>, instrs: seq<Instr>, placed: seq<RdbObject>, o: RdbObject,
                  origin: Word, n: nat)
    requires TakenBy(owner, instrs, placed, origin, n) && |owner'| == |owner|
    requires forall k | 0 <= k < |owner| && owner'[k] != owner[k] :: Takes(o, origin, n, origin + k)
    ensures TakenBy(owner', instrs, placed + [o], origin, n)
  {
    hide Takes, Covers;
    forall k | 0 <= k < |owner'| && owner'[k] != 0
      ensures Covers(instrs, origin + k) || exists p <- placed + [o] :: Takes(p, origin, n, origin + k)
    {
      if owner'[k] != owner[k] {
        assert o in placed + [o];
      } else if p :| p in placed && Takes(p, origin, n, origin + k) {
        assert p in placed + [o];
      }
    }
  }

  /** A lone object finds its first byte free, unless it was placed before. */
  lemma LoneIsFree(owner: seq<int>, objects: seq<RdbObject>, instrs: seq<Instr>, placed: seq<RdbObject>, origin: Word,
                   o: RdbObject)
    requires TakenBy(owner, instrs, placed, origin, |owner|) && Lone(objects, instrs, origin, |owner|, o)
    requires forall p <- placed :: p in objects
    ensures o in placed || owner[o.address - origin] == 0
  {
    hide ObjectEnd, Covers;
    var k := o.address - origin;
    assert origin + k == o.address;
  }

  lemma LoneTakes(objects: seq<RdbObject>, instrs: seq<Instr>, origin: Word, n: nat, o: RdbObject)
    requires Lone(objects, instrs, origin, n, o)
    ensures Takes(o, origin, n, o.address)
  {
  }

  lemma OnlyCode(owner: seq<int>, origin: Word, instrs: seq<Instr>)
    requires OwnerIs(owner, origin, instrs, [])
    ensures TakenBy(owner, instrs, [], origin, |owner|)
  {
    hide Covers;
  }

  /** Owned bytes stay owned, by the same kind of owner. */
  ghost predicate Grown(owner: seq<int>, owner': seq<int>)
  {
    |owner'| == |owner| && forall k | 0 <= k < |owner| :: owner[k] != 0 ==> owner'[k] == owner[k]
  }

  lemma GrownSame(owner: seq<int>)
    ensures Grown(owner, owner)
  {
  }

  lemma GrownMore(first: seq<int>, owner: seq<int>, owner': seq<int>)
    requires Grown(first, owner) && |owner'| == |owner|
    requires forall k | 0 <= k < |owner| && owner[k] != 0 :: owner'[k] == owner[k]
    ensures Grown(first, owner')
  {
  }

  lemma StaysAttributed(o: RdbObject, origin: Word, owner: seq<int>, owner': seq<int>)
    requires Attributed(o, origin, owner) && Grown(owner, owner')
    ensures Attributed(o, origin, owner')
  {
    hide ObjectEnd;
  }

  lemma NoUnits(instrs: seq<Instr>, objects: seq<RdbObject>, origin: Word, end: int)
    ensures UnitsOk([], instrs, objects, origin, end)
  {
  }

  lemma OnlyEqus(c: Context, body: seq<Line>, eqs: seq<Line>)
    requires Releases(c, body, eqs)
    ensures forall l <- eqs :: l.Equ?
  {
  }

  /** The reset vector, or the address of a code-like object of the window. */
  ghost predicate IsSeed(objects: seq<RdbObject>, origin: Word, n: nat, e: Word)
  {
    e == 0 || exists o <- objects :: CodeLike(o) && InRom(o, origin, n) && o.address == e
  }

  lemma DiscoveredFrom(img: Image, given: seq<Word>, entries: seq<Word>, instrs: seq<Instr>)
    requires Discovered(img, given, instrs) && forall e :: e in entries <==> e in given
    ensures Discovered(img, entries, instrs)
  {
    hide Successors;
    var found: seq<Instr> :|
      multiset(found) == multiset(instrs) && NoneInsideEarlier(found) && Grounded(img, given, found);
    assert Grounded(img, entries, found);
  }

  lemma ClosedFrom(img: Image, given: seq<Word>, entries: seq<Word>, instrs: seq<Instr>, conflicts: seq<Word>)
    requires Closed(img, given, instrs, conflicts, []) && forall e :: e in entries <==> e in given
    ensures Closed(img, entries, instrs, conflicts, [])
  {
    hide Known;
  }

  lemma KeptDecoded(img: Image, instrs: seq<Instr>, kept: seq<Instr>)
    requires Decoded(img, instrs) && SortedBy(instrs, ByAddress) && forall i <- kept :: i in instrs
    requires Rising(instrs) ==> Rising(kept)
    ensures Decoded(img, kept) && forall i <- kept :: 1 <= i.size <= 3
  {
    forall i, j | 0 <= i < j < |instrs| ensures instrs[i].address < instrs[j].address {
      assert ByAddress(instrs[i]) <= ByAddress(instrs[j]);
    }
    SizesInRange(img, instrs);
    hide Disassemble;
  }

  function ObjectAddress(o: RdbObject): int { o.address }

  /** listObjects() in address order; std::sort leaves the order of equal addresses open. */
  function Listed(objects: seq<RdbObject>): (r: seq<RdbObject>)
    ensures SortedBy(r, ObjectAddress) && forall o :: o in r <==> o in objects
  {
    var r := SortBy(objects, ObjectAddress);
    SameMembers(objects, r);
    r
  }

  class AsmExporter {
    const rom: seq<Byte>
    const origin: Word
    const objects: seq<RdbObject>
    var instructions: seq<Instr>
    var references: seq<Word>
    var names: map<Word, string>
    var owner: seq<int>
    var dataUnits: seq<DataUnit>
    var collisions: seq<RdbObject>

    constructor (rom: seq<Byte>, origin: Word, objects: seq<RdbObject>)
      ensures this.rom == rom && this.origin == origin && this.objects == objects
    {
      this.rom, this.origin, this.objects := rom, origin, objects;
      instructions, references, names, owner, dataUnits, collisions := [], [], map[], [], [], [];
    }

    ghost predicate Clipped()
      reads this
    {
      Decoded(ImageOf(rom, origin), instructions) && forall i <- instructions :: InWindow(i, origin, origin + |rom|)
    }

    ghost predicate Books()
      reads this
    {
      && |owner| == |rom| && OwnerIs(owner, origin, instructions, dataUnits)
      && UnitsOk(dataUnits, instructions, objects, origin, origin + |rom|)
    }

    /** Claims the free bytes from a0 on, up to `end` or the first owned byte. */
    method ClaimRun(a0: int, end: int) returns (a: int)
      requires origin <= a0 < end <= origin + |owner| && owner[a0 - origin] == 0
      modifies this`owner
      ensures |owner| == |old(owner)| && a0 < a <= end && (a < end ==> owner[a - origin] != 0)
      ensures forall k | a0 - origin <= k < a - origin :: old(owner)[k] == 0
      ensures forall k | 0 <= k < |owner| :: owner[k] == if a0 <= origin + k < a then 2 else old(owner)[k]
    {
      a := a0;
      while a < end && owner[a - origin] == 0
        invariant |owner| == |old(owner)| && a0 <= a <= end && (a == a0 ==> owner[a - origin] == 0)
        invariant forall k | a0 - origin <= k < a - origin :: old(owner)[k] == 0
        invariant forall k | 0 <= k < |owner| :: owner[k] == if a0 <= origin + k < a then 2 else old(owner)[k]
      {
        owner := owner[a - origin := 2];
        a := a + 1;
      }
    }

    /** Whether some byte of the object already has an owner. */
    method Collides(o: RdbObject, end: int) returns (found: bool)
      requires origin <= o.address && end <= origin + |owner|
      ensures found <==> exists k | 0 <= k < |owner| && o.address <= origin + k < end :: owner[k] != 0
    {
      var b: int := o.address;
      while b < end && owner[b - origin] == 0
        invariant o.address <= b && (b <= end || b == o.address)
        invariant forall k | o.address - origin <= k < b - origin :: owner[k] == 0
      {
        b := b + 1;
      }
      found := b < end;
      if found {
        assert owner[b - origin] != 0;
      }
    }

    /** Claims the free bytes of [address, end) in maximal runs. */
    method ClaimFree(o: RdbObject, end: int)
      requires Books() && o in objects && origin + |rom| <= 65536 && origin <= o.address && end <= origin + |rom|
      modifies this`owner, this`dataUnits
      ensures Books() && Grown(old(owner), owner) && old(dataUnits) <= dataUnits
      ensures forall k | 0 <= k < |owner| && o.address <= origin + k < end :: owner[k] != 0
      ensures forall k | 0 <= k < |owner| && owner[k] != old(owner)[k] :: o.address <= origin + k < end
      ensures o.address < end && old(owner)[o.address - origin] == 0 ==> OwnName(dataUnits, o)
    {
      hide OwnerIs, UnitsOk, Claims, OwnName, BaseName, Grown;
      GrownSame(owner);
      var first := true;
      var a: int := o.address;
      while a < end
        invariant o.address <= a && (a <= end || a == o.address) && Books() && Grown(old(owner), owner)
        invariant forall k | 0 <= k < |owner| && o.address <= origin + k < a :: owner[k] != 0
        invariant old(dataUnits) <= dataUnits && (a == o.address ==> first && owner == old(owner))
        invariant forall k | 0 <= k < |owner| && owner[k] != old(owner)[k] :: o.address <= origin + k < end
        invariant a > o.address && old(owner)[o.address - origin] == 0 ==> OwnName(dataUnits, o)
      {
        if owner[a - origin] != 0 {
          a := a + 1;
        } else {
          var runStart: Word := a;
          ghost var before := owner;
          a := ClaimRun(a, end);
          var name := if first && runStart == o.address then BaseName(o) else GenerateLabel(runStart);
          var unit := DataUnit(runStart, a - runStart, name);
          BaseNameClaims(objects, o, runStart);
          AddUnit(before, owner, origin, instructions, dataUnits, objects, unit);
          GrownMore(old(owner), before, owner);
          if runStart == o.address {
            OwnNameLast(dataUnits, unit, o);
          } else if OwnName(dataUnits, o) {
            OwnNameStays(dataUnits, dataUnits + [unit], o);
          }
          dataUnits := dataUnits + [unit];
          first := false;
        }
      }
    }

    /** The loop body of buildLayout. */
    method PlaceObject(o: RdbObject)
      requires Books() && o in objects && origin + |rom| <= 65536
      modifies this`owner, this`dataUnits, this`collisions
      ensures Books() && Attributed(o, origin, owner) && Grown(old(owner), owner) && old(dataUnits) <= dataUnits
      ensures forall k | 0 <= k < |owner| && owner[k] != old(owner)[k] :: Takes(o, origin, |rom|, origin + k)
      ensures Takes(o, origin, |rom|, o.address) && old(owner)[o.address - origin] == 0 ==> OwnName(dataUnits, o)
      ensures collisions == old(collisions) +
                if !CodeLike(o) && InRom(o, origin, |rom|) && o.name != ""
                   && (exists k | 0 <= k < |rom| && o.address <= origin + k < ObjectEnd(o, origin, |rom|) ::
                         old(owner)[k] != 0)
                then [o] else []
    {
      hide OwnerIs, UnitsOk, ObjectEnd, OwnName;
      if CodeLike(o) || !InRom(o, origin, |rom|) {
        return;
      }
      var end := ObjectEnd(o, origin, |rom|);
      ObjectEndInside(o, origin, |rom|);
      if o.name != "" {
        var found := Collides(o, end);
        if found {
          collisions := collisions + [o];
        }
      }
      ClaimFree(o, end);
    }

    method BuildLayout()
      requires Clipped() && origin + |rom| <= 65536
      modifies this`owner, this`dataUnits, this`collisions
      ensures Books() && OwnNames() && forall o <- objects :: Attributed(o, origin, owner)
    {
      hide OwnerIs, UnitsOk, ObjectEnd, Attributed, Decoded, SortedBy, Listed, Grown, ImageOf, OwnName, TakenBy, Lone;
      dataUnits, collisions := [], [];
      assert forall i <- instructions :: 1 <= i.size by {
        assert forall i <- instructions :: InWindow(i, origin, origin + |rom|);
      }
      owner := MarkCode(instructions, origin, |rom|);
      assert UnitsOk([], instructions, objects, origin, origin + |rom|) by {
        NoUnits(instructions, objects, origin, origin + |rom|);
      }
      var sorted := Listed(objects);
      assert TakenBy(owner, instructions, sorted[..0], origin, |rom|) by { OnlyCode(owner, origin, instructions); }
      for k := 0 to |sorted|
        invariant Books() && forall j | 0 <= j < k :: Attributed(sorted[j], origin, owner)
        invariant TakenBy(owner, instructions, sorted[..k], origin, |rom|)
        invariant forall j | 0 <= j < k ::
                    Lone(objects, instructions, origin, |rom|, sorted[j]) ==> OwnName(dataUnits, sorted[j])
      {
        ghost var before, named := owner, dataUnits;
        PlaceObject(sorted[k]);
        TakenMore(before, owner, instructions, sorted[..k], sorted[k], origin, |rom|);
        assert sorted[..k + 1] == sorted[..k] + [sorted[k]];
        forall j | 0 <= j < k
          ensures Attributed(sorted[j], origin, owner)
          ensures Lone(objects, instructions, origin, |rom|, sorted[j]) ==> OwnName(dataUnits, sorted[j])
        {
          StaysAttributed(sorted[j], origin, before, owner);
          if OwnName(named, sorted[j]) {
            OwnNameStays(named, dataUnits, sorted[j]);
          }
        }
        if Lone(objects, instructions, origin, |rom|, sorted[k]) {
          LoneTakes(objects, instructions, origin, |rom|, sorted[k]);
          LoneIsFree(before, objects, instructions, sorted[..k], origin, sorted[k]);
          if sorted[k] in sorted[..k] {
            var j :| 0 <= j < k && sorted[..k][j] == sorted[k];
            assert sorted[j] == sorted[k];
          }
        }
      }
    }

    /** Every lone object has its name on its first byte. */
    ghost predicate OwnNames()
      reads this
    {
      forall o <- objects :: Lone(objects, instructions, origin, |rom|, o) ==> OwnName(dataUnits, o)
    }

    /** Entry points: the reset vector and the code-like objects of the window. */
    method Entries() returns (entries: seq<Word>)
      ensures SortedBy(entries, (w: Word) => w) && forall e: Word :: e in entries <==> IsSeed(objects, origin, |rom|, e)
    {
      var found: seq<Word> := [0];
      for k := 0 to |objects|
        invariant forall e: Word :: e in found <==> IsSeed(objects[..k], origin, |rom|, e)
      {
        assert objects[..k + 1] == objects[..k] + [objects[k]];
        if CodeLike(objects[k]) && InRom(objects[k], origin, |rom|) {
          found := found + [objects[k].address];
        }
      }
      assert objects[..|objects|] == objects;
      entries := SortBy(found, (w: Word) => w);
      SameMembers(found, entries);
    }

    /** What runAnalysis leaves: the analysis from the entry points, clipped to the window. */
    ghost predicate AnalysedAs(r: Analysis)
      reads this
    {
      && Decoded(ImageOf(rom, origin), r.instructions) && RefsMatch(r.instructions, r.references)
      && (forall e: Word :: e in r.entryPoints <==> IsSeed(objects, origin, |rom|, e))
      && Discovered(ImageOf(rom, origin), r.entryPoints, r.instructions)
      && ConflictsGenuine(r.instructions, r.conflicts)
      && (!r.truncated ==> Closed(ImageOf(rom, origin), r.entryPoints, r.instructions, r.conflicts, []))
      && (forall i ::
            i in instructions <==> i in r.instructions && origin <= i.address && i.address + i.size <= origin + |rom|)
      && (forall a :: a in references <==> exists x <- r.references :: x.to == a)
    }

    /** runAnalysis: analyse from the entry points, keep what lies in the window. */
    method RunAnalysis(maxInstructions: nat) returns (r: Analysis)
      modifies this`instructions, this`references
      ensures Clipped() && AnalysedAs(r) && (r.truncated ==> |r.instructions| == maxInstructions)
    {
      hide Disassemble, ImageOf, SortedBy, Closed, RefsMatch, Separated, ConflictsGenuine, NoWrap, Decoded, Covers,
        InRanges, Discovered, AllReached, IsSeed;
      var entries := Entries();
      var img := ImageOf(rom, origin);
      r := AnalyzeCodeMulti(img, entries, maxInstructions);
      var kept, dropped := Clip(r.instructions, origin, |rom|);
      KeptDecoded(img, r.instructions, kept);
      var refs: seq<Word> := [];
      for k := 0 to |r.references|
        invariant forall a :: a in refs <==> exists x <- r.references[..k] :: x.to == a
      {
        assert r.references[..k + 1] == r.references[..k] + [r.references[k]];
        refs := refs + [r.references[k].to];
      }
      assert r.references[..|r.references|] == r.references;
      instructions, references := kept, refs;
      DiscoveredFrom(img, entries, r.entryPoints, r.instructions);
      if !r.truncated {
        ClosedFrom(img, entries, r.entryPoints, r.instructions, r.conflicts);
      }
    }

    ghost function Names(): Context
      reads this
    {
      Context(rom, origin, names, references, objects)
    }

    /** No two labels of the listing clash, and no operand is printed with the name of another address. */
    ghost predicate NamesFine()
      reads this
    {
      !LabelsClash(Names(), instructions, dataUnits, owner) && !Misnamed(Names(), instructions, dataUnits, owner)
    }

    ghost predicate AllPrepared()
      reads this
    {
      Clipped() && Books() && origin + |rom| <= 65536 && NamesClaimed(Names())
    }

    /** emitLayoutAsm: items sorted by address, then the names that no unit carries. */
    method EmitLayoutAsm() returns (lines: seq<Line>)
      requires AllPrepared()
      ensures AssemblesTo(lines, origin, rom)
              <==> !PartialOverlap(instructions) && !AliasShows(instructions) && NamesFine()
      ensures NamesUsable(objects) ==> NamesFine()
      ensures NamesUsable(objects) && !PartialOverlap(instructions) ==> SymbolsCorrect(Names(), lines)
      ensures forall l <- lines :: !l.Defs?
    {
      hide Decoded, UnitsOk, GapsOk, NamesUsable, AssemblesTo, PartialOverlap, AliasShows, Items, Render, L.Walk,
        L.FinalPc, L.Arranged, L.ShortCode, Releases, Tracks, SortedBy, InWindow, NamesClaimed, ImageOf, SymbolsCorrect,
        LabelsClash, Misnamed;
      var c := Context(rom, origin, names, references, objects);
      assert forall k | 0 <= k < |owner| :: owner[k] in {0, 1, 2};
      var coverage := ComputeCoverage(owner, origin);
      var gaps := coverage.uncovered;
      assert Prepared(c, instructions, dataUnits, owner, gaps);
      var sorted := SortBy(Items(instructions, dataUnits, gaps), L.ByStart);
      SortedFits(c, instructions, dataUnits, owner, gaps, sorted);
      var body, defined := EmitItems(c, sorted);
      ghost var placed := L.Walk(sorted, c.origin);
      NoPadding(c, placed);
      assert body == Render(c, placed);
      var eqs := EmitEqus(c, body, defined);
      lines := body + eqs;
      assert forall l <- eqs :: !l.Defs? by { OnlyEqus(c, body, eqs); }
      ExportMeaning(c, instructions, dataUnits, owner, gaps, sorted, eqs);
      if NamesUsable(objects) {
        UsableNames(c, instructions, dataUnits, owner);
      }
    }

    /** run: from the ROM to layout.asm. */
    method Export(maxInstructions: nat) returns (lines: seq<Line>, r: Analysis)
      requires origin + |rom| <= 65536
      modifies this
      ensures r.truncated ==> |r.instructions| == maxInstructions
      ensures Clipped() && AnalysedAs(r) && Books() && forall o <- objects :: Attributed(o, origin, owner)
      ensures NamesFrom(names, objects, references) && OwnNames()
      ensures AssemblesTo(lines, origin, rom)
              <==> !PartialOverlap(instructions) && !AliasShows(instructions) && NamesFine()
      ensures NamesUsable(objects) ==> NamesFine()
      ensures NamesUsable(objects) && !PartialOverlap(instructions) ==> SymbolsCorrect(Names(), lines)
      ensures forall l <- lines :: !l.Defs?
    {
      hide SymbolsCorrect, Decoded, OwnerIs, UnitsOk, NamesUsable, AssemblesTo, PartialOverlap, AliasShows, Attributed,
        Claims, InWindow, ImageOf, RefsMatch, Closed, Discovered, ConflictsGenuine, IsSeed, LabelsClash, Misnamed,
        NamesFrom, Lone;
      r := RunAnalysis(maxInstructions);
      names := BuildNameMap(objects, references);
      NamesAreClaimed(names, objects, references);
      assert NamesClaimed(Names());
      BuildLayout();
      lines := EmitLayoutAsm();
    }
  }
}
