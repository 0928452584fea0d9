/** The address-ordered layout of debugger/export/asm_exporter.cpp as a geometric fact:
    items are byte intervals, and the emitter walks them with a program counter. */
module Layout {
  import opened Words
  import opened Sorting
  import opened Analyzer

  datatype Kind = Code(instr: Instr) | Data | Gap

  /** An item of the layout; `end` is inclusive. */
  datatype Item = Item(start: int, end: int, kind: Kind, name: string)

  function ByStart(i: Item): int { i.start }

  predicate Disjoint(x: Item, y: Item) { x.end < y.start || y.end < x.start }

  /** Only two instructions can share bytes, and they start at different addresses. */
  predicate Apart(x: Item, y: Item)
  {
    x.start != y.start && (Disjoint(x, y) || (x.kind.Code? && y.kind.Code?))
  }

  ghost predicate PairwiseApart(items: seq<Item>)
  {
    forall i, j | 0 <= i < j < |items| :: Apart(items[i], items[j])
  }

  predicate Within(i: Item, origin: int, end: int) { origin <= i.start <= i.end < end }

  ghost predicate Covered(items: seq<Item>, b: int)
  {
    exists i <- items :: i.start <= b <= i.end
  }

  /** Items of the window, together covering it. */
  ghost predicate Fills(items: seq<Item>, origin: int, end: int)
  {
    && (forall i <- items :: Within(i, origin, end))
    && (forall b | origin <= b < end :: Covered(items, b))
  }

  /** x reaches into y and y beyond x. */
  predicate Partial(x: Item, y: Item) { x.start < y.start <= x.end < y.end }

  ghost predicate NoPartial(items: seq<Item>)
  {
    forall x, y | x in items && y in items :: !Partial(x, y)
  }

  ghost predicate Arranged(items: seq<Item>, origin: int, end: int)
  {
    SortedBy(items, ByStart) && PairwiseApart(items) && Fills(items, origin, end)
  }

  lemma SortArranges(items: seq<Item>, sorted: seq<Item>, origin: int, end: int)
    requires PairwiseApart(items) && Fills(items, origin, end)
    requires SortedBy(sorted, ByStart) && multiset(sorted) == multiset(items)
    ensures Arranged(sorted, origin, end)
  {
    SameMembers(items, sorted);
    assert forall i, j | 0 <= i < j < |items| :: Apart(items[i], items[j]) ==> items[i] != items[j];
    DistinctCounts(items);
    forall i, j | 0 <= i < j < |sorted| ensures Apart(sorted[i], sorted[j]) {
      CountsDistinct(sorted, i, j);
      assert sorted[i] in items && sorted[j] in items;
      var a :| 0 <= a < |items| && items[a] == sorted[i];
      var b :| 0 <= b < |items| && items[b] == sorted[j];
      assert if a < b then Apart(items[a], items[b]) else Apart(items[b], items[a]);
    }
    forall b | origin <= b < end ensures Covered(sorted, b) {
      assert Covered(items, b);
    }
  }

  // ---- the emitter's walk ----

  /** An emitted item and the program counter in front of it. */
  datatype Placed = Placed(at: int, item: Item)

  /** emitLayoutAsm: items that end before pc are skipped; any other moves pc past its end. */
  function Walk(items: seq<Item>, pc: int): seq<Placed>
  {
    if items == [] then []
    else if items[0].end < pc then Walk(items[1..], pc)
    else [Placed(pc, items[0])] + Walk(items[1..], items[0].end + 1)
  }

  function FinalPc(items: seq<Item>, pc: int): int
  {
    if items == [] then pc
    else if items[0].end < pc then FinalPc(items[1..], pc)
    else FinalPc(items[1..], items[0].end + 1)
  }

  lemma WalkStep(items: seq<Item>, k: nat, pc: int)
    requires k <= |items|
    ensures k == |items| ==> Walk(items[k..], pc) == [] && FinalPc(items[k..], pc) == pc
    ensures k < |items| && items[k].end < pc ==>
              Walk(items[k..], pc) == Walk(items[k + 1..], pc) && FinalPc(items[k..], pc) == FinalPc(items[k + 1..], pc)
    ensures k < |items| && items[k].end >= pc ==>
              && Walk(items[k..], pc) == [Placed(pc, items[k])] + Walk(items[k + 1..], items[k].end + 1)
              && FinalPc(items[k..], pc) == FinalPc(items[k + 1..], items[k].end + 1)
  {
    if k < |items| {
      assert items[k..][1..] == items[k + 1..] && items[k..][0] == items[k];
    }
  }

  /** pc stands right behind the furthest of the first k items. */
  ghost predicate Frontier(items: seq<Item>, k: nat, pc: int, origin: int)
    requires k <= |items|
  {
    && origin <= pc
    && (forall j | 0 <= j < k :: items[j].end < pc)
    && (pc == origin || exists j | 0 <= j < k :: items[j].end + 1 == pc)
  }

  lemma FrontierStep(items: seq<Item>, k: nat, pc: int, origin: int, end: int)
    requires k < |items| && Arranged(items, origin, end) && Frontier(items, k, pc, origin)
    ensures Frontier(items, k + 1, if items[k].end < pc then pc else items[k].end + 1, origin)
  {
    hide PairwiseApart, SortedBy;
    assert Within(items[k], origin, end);
    if items[k].end >= pc {
      assert items[k].end + 1 == items[k].end + 1;
    } else if pc != origin {
      var j :| 0 <= j < k && items[j].end + 1 == pc;
    }
  }

  /** No padding is ever needed. */
  lemma NeverShort(items: seq<Item>, k: nat, pc: int, origin: int, end: int)
    requires k <= |items| && Arranged(items, origin, end) && Frontier(items, k, pc, origin) && pc < end
    ensures k < |items| && (items[k].end >= pc ==> items[k].start <= pc)
  {
    assert Covered(items, pc);
    var t :| t in items && t.start <= pc <= t.end;
    var j :| 0 <= j < |items| && items[j] == t;
    assert j >= k;
    assert j > k ==> ByStart(items[k]) <= ByStart(items[j]);
  }

  /** Without partial overlaps nothing is emitted twice either. */
  lemma NeverOver(items: seq<Item>, k: nat, pc: int, origin: int, end: int)
    requires k < |items| && Arranged(items, origin, end) && Frontier(items, k, pc, origin) && NoPartial(items)
    requires items[k].end >= pc
    ensures items[k].start >= pc
  {
    if items[k].start < pc {
      assert Within(items[k], origin, end);
      var j :| 0 <= j < k && items[j].end + 1 == pc;
      assert Apart(items[j], items[k]) && ByStart(items[j]) <= ByStart(items[k]);
      assert Partial(items[j], items[k]);
    }
  }

  ghost predicate Exact(placed: seq<Placed>)
  {
    forall p <- placed :: p.item.start == p.at
  }

  lemma {:induction false} WalkEnds(items: seq<Item>, k: nat, pc: int, origin: int, end: int)
    requires k <= |items| && Arranged(items, origin, end) && Frontier(items, k, pc, origin) && pc <= end
    ensures FinalPc(items[k..], pc) == end
    ensures forall p <- Walk(items[k..], pc) :: p.item.start <= p.at
    decreases |items| - k
  {
    hide Arranged, Frontier, Walk, FinalPc;
    WalkStep(items, k, pc);
    if k == |items| {
      if pc < end {
        NeverShort(items, k, pc, origin, end);
      }
    } else {
      FrontierStep(items, k, pc, origin, end);
      var next := if items[k].end < pc then pc else items[k].end + 1;
      assert next <= end by {
        InWindow(items, k, origin, end);
        assert items[k] in items && Within(items[k], origin, end);
      }
      if items[k].end >= pc {
        assert pc < end;
        NeverShort(items, k, pc, origin, end);
      }
      WalkEnds(items, k + 1, next, origin, end);
    }
  }

  lemma InWindow(items: seq<Item>, k: nat, origin: int, end: int)
    requires k < |items| && Arranged(items, origin, end)
    ensures Within(items[k], origin, end)
  {
  }

  lemma {:induction false} WalkExact(items: seq<Item>, k: nat, pc: int, origin: int, end: int)
    requires k <= |items| && Arranged(items, origin, end) && Frontier(items, k, pc, origin) && pc <= end
    requires NoPartial(items)
    ensures Exact(Walk(items[k..], pc))
    decreases |items| - k
  {
    hide Arranged, Frontier, Walk, NoPartial;
    WalkStep(items, k, pc);
    if k < |items| {
      FrontierStep(items, k, pc, origin, end);
      InWindow(items, k, origin, end);
      var next := if items[k].end < pc then pc else items[k].end + 1;
      if items[k].end >= pc {
        NeverShort(items, k, pc, origin, end);
        NeverOver(items, k, pc, origin, end);
      }
      WalkExact(items, k + 1, next, origin, end);
    }
  }


  // ---- an exact walk has met no partial overlap ----

  ghost predicate NoPartialUpTo(items: seq<Item>, k: nat)
    requires k <= |items|
  {
    forall i, j | 0 <= i < k && 0 <= j < k :: !Partial(items[i], items[j])
  }

  ghost predicate ShortCode(items: seq<Item>)
  {
    forall x <- items :: x.kind.Code? ==> x.end <= x.start + 2
  }

  lemma NoPartialStep(items: seq<Item>, k: nat, pc: int, origin: int, end: int)
    requires k < |items| && Arranged(items, origin, end) && Frontier(items, k, pc, origin) && ShortCode(items)
    requires NoPartialUpTo(items, k) && (items[k].end < pc || items[k].start == pc)
    ensures NoPartialUpTo(items, k + 1)
  {
    var y := items[k];
    assert Within(y, origin, end);
    forall i | 0 <= i < k ensures !Partial(items[i], y) && !Partial(y, items[i]) {
      var x := items[i];
      assert Apart(x, y) && ByStart(x) <= ByStart(y);
      if y.end < pc {
        var m :| 0 <= m < k && items[m].end + 1 == pc;
        var z := items[m];
        assert Apart(z, y) && ByStart(z) <= ByStart(y);
        assert !Partial(x, z);
      }
    }
    forall i, j | 0 <= i < k + 1 && 0 <= j < k + 1 ensures !Partial(items[i], items[j]) {
    }
  }

  lemma {:induction false} ExactMeansNoPartial(items: seq<Item>, k: nat, pc: int, origin: int, end: int)
    requires k <= |items| && Arranged(items, origin, end) && Frontier(items, k, pc, origin) && ShortCode(items)
    requires NoPartialUpTo(items, k) && Exact(Walk(items[k..], pc))
    ensures NoPartialUpTo(items, |items|)
    decreases |items| - k
  {
    hide Arranged, Frontier, Walk, NoPartialUpTo, ShortCode;
    if k < |items| {
      WalkStep(items, k, pc);
      FrontierStep(items, k, pc, origin, end);
      assert items[k].end < pc || items[k].start == pc by {
        if items[k].end >= pc {
          assert Placed(pc, items[k]) in Walk(items[k..], pc);
        }
      }
      NoPartialStep(items, k, pc, origin, end);
      ExactMeansNoPartial(items, k + 1, if items[k].end < pc then pc else items[k].end + 1, origin, end);
    }
  }

  /** The walk emits every byte of the window once, in order, exactly when no two instructions
      overlap partially: an instruction nested in another is left out. */
  lemma ExactIff(items: seq<Item>, origin: int, end: int)
    requires Arranged(items, origin, end) && ShortCode(items) && origin <= end
    ensures Exact(Walk(items, origin)) <==> NoPartial(items)
    ensures FinalPc(items, origin) == end
    ensures forall p <- Walk(items, origin) :: p.item.start <= p.at
  {
    hide Arranged, Walk, FinalPc, ShortCode;
    assert items[0..] == items;
    WalkEnds(items, 0, origin, origin, end);
    if NoPartial(items) {
      WalkExact(items, 0, origin, origin, end);
    }
    if Exact(Walk(items, origin)) {
      ExactMeansNoPartial(items, 0, origin, origin, end);
    }
  }

  /** Some other item starts before x and reaches to its end. */
  ghost predicate Nested(items: seq<Item>, x: Item)
  {
    exists y <- items :: y.start < x.start && x.end <= y.end
  }

  ghost predicate Appears(placed: seq<Placed>, x: Item)
  {
    exists p <- placed :: p.item == x
  }

  lemma AppearsCons(p: Placed, rest: seq<Placed>, x: Item)
    ensures Appears([p] + rest, x) <==> p.item == x || Appears(rest, x)
  {
    assert p in [p] + rest;
    if q :| q in rest && q.item == x {
      assert q in [p] + rest;
    }
  }

  /** What is left out is nested in another item, and what is nested is left out. */
  lemma {:induction false} Emitted(items: seq<Item>, k: nat, pc: int, origin: int, end: int, j: nat)
    requires k <= j < |items| && Arranged(items, origin, end) && Frontier(items, k, pc, origin)
    ensures Appears(Walk(items[k..], pc), items[j]) <==> !Nested(items, items[j])
    decreases |items| - k
  {
    hide Walk, Frontier, Nested, Appears, Arranged;
    WalkStep(items, k, pc);
    FrontierStep(items, k, pc, origin, end);
    var next := if items[k].end < pc then pc else items[k].end + 1;
    if items[k].end >= pc {
      AppearsCons(Placed(pc, items[k]), Walk(items[k + 1..], next), items[j]);
    }
    if j > k {
      assert items[k] != items[j] by { assert Apart(items[k], items[j]) by { TwoApart(items, k, j, origin, end); } }
      Emitted(items, k + 1, next, origin, end, j);
    } else {
      EmittedHere(items, k, pc, origin, end);
      NotLater(items, k + 1, next, origin, end, k);
    }
  }

  lemma TwoApart(items: seq<Item>, i: nat, j: nat, origin: int, end: int)
    requires i < j < |items| && Arranged(items, origin, end)
    ensures Apart(items[i], items[j])
  {
  }

  lemma EmittedHere(items: seq<Item>, k: nat, pc: int, origin: int, end: int)
    requires k < |items| && Arranged(items, origin, end) && Frontier(items, k, pc, origin)
    ensures items[k].end < pc <==> Nested(items, items[k])
  {
    var x := items[k];
    if x.end < pc {
      assert Within(x, origin, end);
      var j :| 0 <= j < k && items[j].end + 1 == pc;
      assert Apart(items[j], x) && ByStart(items[j]) <= ByStart(x);
      assert items[j] in items;
    }
    if y :| y in items && y.start < x.start && x.end <= y.end {
      var j :| 0 <= j < |items| && items[j] == y;
      assert j >= k ==> j == k || ByStart(x) <= ByStart(y);
    }
  }

  lemma {:induction false} NotLater(items: seq<Item>, k: nat, pc: int, origin: int, end: int, j: nat)
    requires j < k <= |items| && Arranged(items, origin, end)
    ensures !Appears(Walk(items[k..], pc), items[j])
    decreases |items| - k
  {
    hide Walk, Arranged;
    WalkStep(items, k, pc);
    if k < |items| {
      TwoApart(items, j, k, origin, end);
      var next := if items[k].end < pc then pc else items[k].end + 1;
      NotLater(items, k + 1, next, origin, end, j);
      AppearsCons(Placed(pc, items[k]), Walk(items[k + 1..], next), items[j]);
    }
  }
}
