/** class AsmExporter of debugger/export/asm_exporter.cpp: from ROM bytes to the listing,
    and what assembling the listing gives. */
module Exporter {
  import opened Words
  import opened Sorting
  import opened Analyzer
  import opened Literals
  import opened Asm
  import L = Layout
  import opened Ownership
  import opened Listing

  // ---- the emitted items one after another ----

  ghost predicate Chained(placed: seq<L.Placed>, pc: int, end: int)
  {
    if placed == [] then pc == end else placed[0].at == pc && Chained(placed[1..], placed[0].item.end + 1, end)
  }

  lemma {:induction false} WalkChained(items: seq<L.Item>, pc: int)
    ensures Chained(L.Walk(items, pc), pc, L.FinalPc(items, pc))
    ensures forall p <- L.Walk(items, pc) :: p.item in items
  {
    if items != [] {
      var next := if items[0].end < pc then pc else items[0].end + 1;
      WalkChained(items[1..], next);
      if items[0].end >= pc {
        assert L.Walk(items, pc)[1..] == L.Walk(items[1..], next);
      }
    }
  }

  ghost predicate AllGenuine(c: Context, placed: seq<L.Placed>)
  {
    forall p <- placed :: Genuine(c, p.item)
  }

  ghost predicate Ready(c: Context, placed: seq<L.Placed>)
  {
    End(c) <= 65536 && NamesClaimed(c) && AllGenuine(c, placed) && AllWithin(c, placed)
  }

  lemma ReadyStep(c: Context, placed: seq<L.Placed>)
    requires Ready(c, placed) && placed != []
    ensures Ready(c, placed[1..]) && AllWithin(c, placed[1..]) && End(c) <= 65536 && Genuine(c, placed[0].item)
    ensures L.Within(placed[0].item, c.origin, End(c))
    ensures Render(c, placed) == PlacedLines(c, placed[0]) + Render(c, placed[1..])
    ensures placed[0].item.start <= placed[0].at ==> PlacedLines(c, placed[0]) == LinesOf(c, placed[0].item)
  {
    hide Genuine, LinesOf, NamesClaimed;
    assert placed[0] in placed;
    assert forall p <- placed[1..] :: p in placed;
  }

  /** Emitted in full, overlaps only make the listing longer than the window. */
  lemma {:induction false} RenderSize(c: Context, placed: seq<L.Placed>, pc: int, end: int)
    requires Ready(c, placed) && Chained(placed, pc, end) && forall p <- placed :: p.item.start <= p.at
    ensures Size(Render(c, placed)) >= end - pc
    ensures Size(Render(c, placed)) == end - pc <==> L.Exact(placed)
  {
    if placed != [] {
      ReadyStep(c, placed);
      var p, rest := placed[0], placed[1..];
      assert p in placed && forall q <- rest :: q in placed;
      assert L.Exact(placed) <==> p.item.start == p.at && L.Exact(rest) by { ExactStep(placed); }
      hide Ready, LinesOf, PlacedLines, Render, L.Exact, Genuine, Size;
      RenderSize(c, rest, p.item.end + 1, end);
      SizeConcat(PlacedLines(c, p), Render(c, rest));
      ItemSize(c, placed);
    }
  }

  lemma ExactStep(placed: seq<L.Placed>)
    requires placed != []
    ensures L.Exact(placed) <==> placed[0].item.start == placed[0].at && L.Exact(placed[1..])
  {
    if placed[0].item.start == placed[0].at && L.Exact(placed[1..]) {
      forall p <- placed ensures p.item.start == p.at {
        assert p == placed[0] || p in placed[1..];
      }
    }
  }

  lemma ItemSize(c: Context, placed: seq<L.Placed>)
    requires Ready(c, placed) && placed != []
    ensures L.Within(placed[0].item, c.origin, End(c)) && End(c) <= 65536
    ensures Size(LinesOf(c, placed[0].item)) == placed[0].item.end + 1 - placed[0].item.start
  {
    hide Genuine, LinesOf, NamesClaimed, Size;
    ReadyStep(c, placed);
    ItemMeaning(c, placed[0].item, map[]);
  }

  ghost predicate NoAlias(placed: seq<L.Placed>)
  {
    forall p <- placed :: !IsAlias(p.item)
  }

  lemma NoAliasStep(placed: seq<L.Placed>)
    requires placed != []
    ensures NoAlias(placed) <==> !IsAlias(placed[0].item) && NoAlias(placed[1..])
  {
    hide IsAlias;
    if !IsAlias(placed[0].item) && NoAlias(placed[1..]) {
      forall p <- placed ensures !IsAlias(p.item) {
        assert p == placed[0] || p in placed[1..];
      }
    }
  }

  lemma EqualParts(x: seq<Byte>, y: seq<Byte>, u: seq<Byte>, v: seq<Byte>)
    requires |x| == |u|
    ensures x + y == u + v <==> x == u && y == v
  {
    if x + y == u + v {
      assert x == (x + y)[..|x|] && u == (u + v)[..|x|];
      assert y == (x + y)[|x|..] && v == (u + v)[|x|..];
    }
  }

  /** The operand names of all printed instructions have their operands' values. */
  ghost predicate AllServe(c: Context, placed: seq<L.Placed>, env: map<string, int>)
  {
    forall p <- placed :: ItemServes(c, p.item, env)
  }

  lemma AllServeStep(c: Context, placed: seq<L.Placed>, env: map<string, int>)
    requires placed != []
    ensures AllServe(c, placed, env) <==> ItemServes(c, placed[0].item, env) && AllServe(c, placed[1..], env)
  {
    hide ItemServes;
    if ItemServes(c, placed[0].item, env) && AllServe(c, placed[1..], env) {
      forall p <- placed ensures ItemServes(c, p.item, env) {
        assert p == placed[0] || p in placed[1..];
      }
    }
  }

  lemma FitsConcat(a: seq<Line>, b: seq<Line>, env: map<string, int>)
    ensures AllFit(a + b, env) <==> AllFit(a, env) && AllFit(b, env)
  {
    hide Fits;
    assert forall l :: l in a + b <==> l in a || l in b;
  }

  /** An exact layout is accepted and gives the bytes of the window if and only if no alias of NOP is emitted
      and every printed name has its operand's value. */
  lemma {:induction false} RenderBytes(c: Context, placed: seq<L.Placed>, pc: int, end: int, env: map<string, int>)
    requires Ready(c, placed) && Chained(placed, pc, end) && L.Exact(placed) && WordValues(env)
    requires c.origin <= pc && end <= End(c)
    ensures pc <= end
    ensures AllFit(Render(c, placed), env) && Assemble(Render(c, placed), env) == c.rom[pc - c.origin..end - c.origin]
            <==> NoAlias(placed) && AllServe(c, placed, env)
  {
    hide Ready, LinesOf, PlacedLines, Render, L.Exact, WordValues, NoAlias, Assemble, IsAlias, Size, Chained, Genuine,
      AllWithin, AllServe, ItemServes, AllFit;
    if placed == [] {
      NothingPlaced(c, placed, pc, end, env);
    } else {
      ReadyStep(c, placed);
      NoAliasStep(placed);
      AllServeStep(c, placed, env);
      ExactStep(placed);
      ChainedStep(placed, pc, end);
      var x, rest := placed[0].item, placed[1..];
      RenderBytes(c, rest, x.end + 1, end, env);
      AssembleConcat(LinesOf(c, x), Render(c, rest), env);
      FitsConcat(LinesOf(c, x), Render(c, rest), env);
      FirstBytes(c, placed, env);
      var u, v := c.rom[pc - c.origin..x.end + 1 - c.origin], c.rom[x.end + 1 - c.origin..end - c.origin];
      assert c.rom[pc - c.origin..end - c.origin] == u + v;
      EqualParts(Assemble(LinesOf(c, x), env), Assemble(Render(c, rest), env), u, v);
    }
  }

  lemma NothingPlaced(c: Context, placed: seq<L.Placed>, pc: int, end: int, env: map<string, int>)
    requires placed == [] && Chained(placed, pc, end) && Ready(c, placed)
    ensures pc == end && Assemble(Render(c, placed), env) == [] && NoAlias(placed)
    ensures AllFit(Render(c, placed), env) && AllServe(c, placed, env)
    ensures Definitions(Render(c, placed), pc) == []
  {
  }

  lemma ChainedStep(placed: seq<L.Placed>, pc: int, end: int)
    requires Chained(placed, pc, end) && placed != []
    ensures placed[0].at == pc && Chained(placed[1..], placed[0].item.end + 1, end)
  {
  }

  lemma FirstBytes(c: Context, placed: seq<L.Placed>, env: map<string, int>)
    requires Ready(c, placed) && placed != [] && WordValues(env)
    ensures var x := placed[0].item;
            && L.Within(x, c.origin, End(c)) && End(c) <= 65536
            && |Assemble(LinesOf(c, x), env)| == x.end + 1 - x.start
            && (GivesItsBytes(c, x, env) <==> !IsAlias(x) && ItemServes(c, x, env))
  {
    hide Genuine, LinesOf, NamesClaimed, Size, Assemble, IsAlias, WordValues, AllFit, ItemServes;
    ReadyStep(c, placed);
    ItemMeaning(c, placed[0].item, env);
  }

  // ---- the symbols they define ----

  ghost predicate Ascending(defs: seq<Definition>)
  {
    forall i, j | 0 <= i < j < |defs| :: defs[i].value < defs[j].value
  }

  ghost predicate AllClaimed(c: Context, defs: seq<Definition>, from: int)
  {
    forall d <- defs :: from <= d.value && Claims(c.objects, d.name, d.value)
  }

  lemma AscendingConcat(c: Context, a: seq<Definition>, b: seq<Definition>, at: int, next: int)
    requires |a| <= 1 && at < next && (forall d <- a :: d.value == at && Claims(c.objects, d.name, d.value))
    requires Ascending(b) && AllClaimed(c, b, next)
    ensures Ascending(a + b) && AllClaimed(c, a + b, at)
  {
    hide Claims;
    if a != [] {
      assert a[0] in a && forall j | 0 <= j < |b| :: b[j] in b;
    }
  }

  lemma FirstLabel(c: Context, x: L.Item)
    ensures |LabelDefs(c, x)| <= 1
    ensures forall d <- LabelDefs(c, x) :: d == Definition(LabelOf(c, x), x.start) && d.name != ""
  {
    hide LabelOf;
  }

  lemma {:induction false} RenderDefines(c: Context, placed: seq<L.Placed>, pc: int, end: int)
    requires Ready(c, placed) && Chained(placed, pc, end) && L.Exact(placed)
    ensures Ascending(Definitions(Render(c, placed), pc)) && AllClaimed(c, Definitions(Render(c, placed), pc), pc)
  {
    hide Ready, LinesOf, PlacedLines, Render, L.Exact, Definitions, Size, Chained, Genuine, Claims, AllWithin,
      LabelDefs, LabelOf;
    if placed == [] {
      NothingPlaced(c, placed, pc, end, map[]);
    } else {
      hide Ascending, AllClaimed;
      ReadyStep(c, placed);
      ExactStep(placed);
      ChainedStep(placed, pc, end);
      ItemSize(c, placed);
      var x, rest := placed[0].item, placed[1..];
      RenderDefines(c, rest, x.end + 1, end);
      DefinitionsConcat(LinesOf(c, x), Render(c, rest), pc);
      FirstDefines(c, placed);
      FirstLabel(c, x);
      AscendingConcat(c, Definitions(LinesOf(c, x), pc), Definitions(Render(c, rest), x.end + 1), pc, x.end + 1);
    }
  }

  lemma FirstDefines(c: Context, placed: seq<L.Placed>)
    requires Ready(c, placed) && placed != []
    ensures var x := placed[0].item;
            && L.Within(x, c.origin, End(c)) && End(c) <= 65536
            && Definitions(LinesOf(c, x), x.start) == LabelDefs(c, x)
            && (LabelOf(c, x) != "" ==> Claims(c.objects, LabelOf(c, x), x.start))
  {
    hide Genuine, LinesOf, NamesClaimed, Size, Definitions, Claims, LabelDefs, LabelOf;
    ReadyStep(c, placed);
    ItemMeaning(c, placed[0].item, map[]);
  }

  /** A printed item carries the label n at address a. */
  ghost predicate LabelPlaced(c: Context, placed: seq<L.Placed>, n: string, a: int)
  {
    n != "" && exists p <- placed :: LabelOf(c, p.item) == n && p.item.start == a
  }

  lemma LabelPlacedStep(c: Context, placed: seq<L.Placed>, n: string, a: int)
    requires placed != []
    ensures LabelPlaced(c, placed, n, a)
            <==> LabelPlaced(c, placed[1..], n, a) || Definition(n, a) in LabelDefs(c, placed[0].item)
  {
    hide LabelOf;
    if p :| p in placed && LabelOf(c, p.item) == n && p.item.start == a {
      assert p == placed[0] || p in placed[1..];
    }
  }

  /** The labels a listing defines are those of its items. */
  lemma {:induction false} RenderLabels(c: Context, placed: seq<L.Placed>, pc: int, end: int, d: Definition)
    requires Ready(c, placed) && Chained(placed, pc, end) && L.Exact(placed)
    ensures d in Definitions(Render(c, placed), pc) <==> LabelPlaced(c, placed, d.name, d.value)
  {
    hide Ready, LinesOf, PlacedLines, Render, L.Exact, Definitions, Size, Chained, Genuine, AllWithin, LabelDefs,
      LabelOf;
    if placed == [] {
      NothingPlaced(c, placed, pc, end, map[]);
    } else {
      hide LabelPlaced;
      ReadyStep(c, placed);
      ExactStep(placed);
      ChainedStep(placed, pc, end);
      ItemSize(c, placed);
      var x, rest := placed[0].item, placed[1..];
      RenderLabels(c, rest, x.end + 1, end, d);
      DefinitionsConcat(LinesOf(c, x), Render(c, rest), pc);
      FirstDefines(c, placed);
      LabelPlacedStep(c, placed, d.name, d.value);
    }
  }

  lemma {:induction false} RenderReadable(c: Context, placed: seq<L.Placed>)
    requires Ready(c, placed) && forall p <- placed :: p.item.start <= p.at
    ensures AllReadable(Render(c, placed))
  {
    hide LinesOf, Genuine, Readable, PlacedLines, Render, NamesClaimed;
    if placed == [] {
      RenderEmpty(c, placed);
    } else {
      ReadyStep(c, placed);
      assert placed[0] in placed && forall p <- placed[1..] :: p in placed;
      RenderReadable(c, placed[1..]);
      FirstReadable(c, placed);
    }
  }

  lemma RenderEmpty(c: Context, placed: seq<L.Placed>)
    requires placed == [] && Ready(c, placed)
    ensures Render(c, placed) == []
  {
  }

  lemma FirstReadable(c: Context, placed: seq<L.Placed>)
    requires Ready(c, placed) && placed != []
    ensures L.Within(placed[0].item, c.origin, End(c)) && End(c) <= 65536 && AllReadable(LinesOf(c, placed[0].item))
  {
    hide Genuine, LinesOf, NamesClaimed, Size, Definitions, Assemble, AllReadable;
    ReadyStep(c, placed);
    ItemMeaning(c, placed[0].item, map[]);
  }

  // ---- names released with equ ----

  ghost predicate DefinedIn(lines: seq<Line>, n: string)
  {
    exists l <- lines :: (l.Label? || l.Equ?) && l.name == n
  }

  ghost predicate Defines(defs: seq<Definition>, n: string)
  {
    exists d <- defs :: d.name == n
  }

  lemma {:induction false} DefinedNames(lines: seq<Line>, pc: int, n: string)
    ensures DefinedIn(lines, n) <==> Defines(Definitions(lines, pc), n)
  {
    if lines != [] {
      var l, rest := lines[0], lines[1..];
      DefinedNames(rest, pc + SizeOf(l), n);
      assert lines == [l] + rest;
      assert Definitions(lines, pc) == DefinitionsOf(l, pc) + Definitions(rest, pc + SizeOf(l));
      hide SizeOf, Definitions;
      if DefinedIn(rest, n) {
        var d :| d in Definitions(rest, pc + SizeOf(l)) && d.name == n;
        assert d in Definitions(lines, pc);
      }
      if (l.Label? || l.Equ?) && l.name == n {
        assert DefinitionsOf(l, pc)[0] in Definitions(lines, pc);
        assert l in lines;
      }
    }
  }

  /** An equ line gives a name of the context the least address it names, as a literal. */
  ghost predicate Released(c: Context, l: Line)
    requires l.Equ?
  {
    exists a <- c.names :: c.names[a] == l.name && l.literal == WordLiteral(a, true) && Least(c.names, a)
  }

  ghost predicate AllEqu(c: Context, eqs: seq<Line>)
  {
    forall l <- eqs :: l.Equ? && Released(c, l)
  }

  lemma {:induction false} EqusDefine(c: Context, eqs: seq<Line>, pc: int, env: map<string, int>)
    requires AllEqu(c, eqs)
    ensures Size(eqs) == 0 && Assemble(eqs, env) == [] && |Definitions(eqs, pc)| == |eqs|
    ensures forall k | 0 <= k < |eqs| :: Definitions(eqs, pc)[k] == Definition(eqs[k].name, ReadLiteral(eqs[k].literal))
  {
    hide Definitions, Released, ReadLiteral;
    DefinitionsStep(eqs, pc);
    if eqs != [] {
      assert eqs[0] in eqs && forall l <- eqs[1..] :: l in eqs;
      EqusDefine(c, eqs[1..], pc, env);
    }
  }

  /** a is the least address of its name. */
  ghost predicate Least(names: map<Word, string>, a: Word)
  {
    a in names && forall b <- names | b < a :: names[b] != names[a]
  }

  /** The equ block defines each remaining name once, with the least address that has it. */
  ghost predicate Releases(c: Context, body: seq<Line>, eqs: seq<Line>)
  {
    && AllEqu(c, eqs)
    && (forall l <- eqs :: !DefinedIn(body, l.name))
    && (forall i, j | 0 <= i < j < |eqs| :: eqs[i].name != eqs[j].name)
    && (forall a <- c.names :: DefinedIn(body + eqs, c.names[a]))
  }

  lemma OnceWhenClaimed(c: Context, a: seq<Definition>, b: seq<Definition>)
    requires NamesUsable(c.objects) && Ascending(a) && forall d <- a :: Claims(c.objects, d.name, d.value)
    requires DefinedOnce(b) && forall d <- b :: !Defines(a, d.name)
    ensures DefinedOnce(a + b)
  {
    hide NamesUsable, Claims;
    forall i, j | 0 <= i < j < |a| ensures a[i].name != a[j].name {
      assert a[i] in a && a[j] in a;
      if a[i].name == a[j].name {
        ClaimsUnique(c.objects, a[i].name, a[i].value, a[j].value);
      }
    }
    forall i, j | 0 <= i < |a| && 0 <= j < |b| ensures a[i].name != b[j].name {
      assert a[i] in a && b[j] in b;
    }
  }

  lemma RightWhenClaimed(c: Context, defs: seq<Definition>)
    requires NamesUsable(c.objects) && NamesClaimed(c) && forall d <- defs :: Claims(c.objects, d.name, d.value)
    requires forall a <- c.names :: Defines(defs, c.names[a])
    ensures Right(c, Values(defs))
  {
    hide NamesUsable, Claims, Values;
    ValuesAre(defs);
    forall n <- c.names ensures c.names[n] in Values(defs) && Values(defs)[c.names[n]] == n {
      ClaimsUnique(c.objects, c.names[n], Values(defs)[c.names[n]], n);
    }
  }

  lemma EqusClaimed(c: Context, body: seq<Line>, eqs: seq<Line>, pc: int)
    requires NamesClaimed(c) && Releases(c, body, eqs)
    ensures var b := Definitions(eqs, pc);
            && DefinedOnce(b)
            && (forall d <- b :: Claims(c.objects, d.name, d.value))
            && (forall d <- b :: !DefinedIn(body, d.name))
  {
    hide Claims, Definitions, DefinedIn, WordLiteral, ReadLiteral, IsLiteral;
    EqusDefine(c, eqs, pc, map[]);
    var b := Definitions(eqs, pc);
    forall d <- b ensures Claims(c.objects, d.name, d.value) && !DefinedIn(body, d.name) {
      var k :| 0 <= k < |b| && b[k] == d;
      assert eqs[k] in eqs;
      var a: Word :| a in c.names && c.names[a] == eqs[k].name && eqs[k].literal == WordLiteral(a, true)
        && Least(c.names, a);
      WordReads(a, true);
    }
  }

  lemma EqusReadable(c: Context, eqs: seq<Line>)
    requires AllEqu(c, eqs)
    ensures AllReadable(eqs)
  {
    hide WordLiteral, IsLiteral;
    forall l <- eqs ensures Readable(l) {
      var a: Word :| a in c.names && c.names[a] == l.name && l.literal == WordLiteral(a, true) && Least(c.names, a);
      WordReads(a, true);
    }
  }

  /** No name is defined twice, every one stands for its own address, and so do all names of the context. */
  ghost predicate SymbolsCorrect(c: Context, lines: seq<Line>)
  {
    var defs := Definitions(lines, c.origin);
    DefinedOnce(defs) && Right(c, Values(defs)) && forall d <- defs :: Claims(c.objects, d.name, d.value)
  }

  /** All symbols of an exact listing are defined once, each with its own address. */
  lemma SymbolsRight(c: Context, placed: seq<L.Placed>, end: int, eqs: seq<Line>)
    requires Ready(c, placed) && Chained(placed, c.origin, end) && L.Exact(placed) && NamesUsable(c.objects)
    requires Releases(c, Render(c, placed), eqs)
    ensures SymbolsCorrect(c, Render(c, placed) + eqs)
  {
    hide Render, Releases;
    RenderDefines(c, placed, c.origin, end);
    SymbolsFrom(c, Render(c, placed), eqs, c.origin);
  }

  lemma SymbolsFrom(c: Context, body: seq<Line>, eqs: seq<Line>, pc: int)
    requires NamesClaimed(c) && NamesUsable(c.objects) && Releases(c, body, eqs)
    requires Ascending(Definitions(body, pc)) && AllClaimed(c, Definitions(body, pc), pc)
    ensures pc == c.origin ==> SymbolsCorrect(c, body + eqs)
  {
    hide Ascending, DefinedOnce, Definitions, Size, Claims, NamesUsable, DefinedIn, Defines, Values, Right,
      NamesClaimed, AllEqu;
    DefinitionsConcat(body, eqs, pc);
    EqusClaimed(c, body, eqs, pc + Size(body));
    var a, b := Definitions(body, pc), Definitions(eqs, pc + Size(body));
    forall d <- b ensures !Defines(a, d.name) {
      DefinedNames(body, pc, d.name);
    }
    OnceWhenClaimed(c, a, b);
    forall n <- c.names ensures Defines(a + b, c.names[n]) {
      DefinedNames(body + eqs, pc, c.names[n]);
    }
    RightWhenClaimed(c, a + b);
  }

  lemma AssembledParts(body: seq<Line>, eqs: seq<Line>, c: Context, env: map<string, int>)
    requires AllEqu(c, eqs)
    ensures Assemble(body + eqs, env) == Assemble(body, env) && |Assemble(body, env)| == Size(body)
  {
    hide Assemble, Size, Definitions, AllEqu;
    EqusDefine(c, eqs, 0, env);
    AssembleConcat(body, eqs, env);
    assert Assemble(body, env) + [] == Assemble(body, env);
  }

  lemma ExactIsBelow(placed: seq<L.Placed>)
    requires L.Exact(placed)
    ensures forall p <- placed :: p.item.start <= p.at
  {
  }

  // ---- what the names stand for ----

  ghost predicate LeastOf(names: map<Word, string>, n: string, v: int)
  {
    0 <= v < 65536 && Least(names, v) && names[v] == n
  }

  ghost predicate HasLabel(c: Context, placed: seq<L.Placed>, n: string) { exists a :: LabelPlaced(c, placed, n, a) }

  /** n means v: a printed label says so, or no label has the name and v is the least address that has it. */
  ghost predicate StandsFor(c: Context, placed: seq<L.Placed>, n: string, v: int)
  {
    LabelPlaced(c, placed, n, v) || (!HasLabel(c, placed, n) && LeastOf(c.names, n, v))
  }

  /** No name is printed as a label at two addresses. */
  ghost predicate LabelsApart(c: Context, placed: seq<L.Placed>)
  {
    forall n, a, b | LabelPlaced(c, placed, n, a) && LabelPlaced(c, placed, n, b) :: a == b
  }

  /** Every printed operand name stands for its operand's value. */
  ghost predicate NamesServe(c: Context, placed: seq<L.Placed>)
  {
    forall p <- placed | p.item.kind.Code? ::
      var img, i := ImageOf(c.rom, c.origin), p.item.kind.instr;
      PrintsName(c, img, i) ==> Shown(img, i) in c.names && StandsFor(c, placed, c.names[Shown(img, i)], Shown(img, i))
  }

  lemma EqusMean(c: Context, body: seq<Line>, eqs: seq<Line>, pc: int, d: Definition)
    requires Releases(c, body, eqs)
    ensures d in Definitions(eqs, pc) <==> LeastOf(c.names, d.name, d.value) && !DefinedIn(body, d.name)
  {
    hide Definitions, DefinedIn, WordLiteral, ReadLiteral, IsLiteral;
    EqusDefine(c, eqs, pc, map[]);
    var defs := Definitions(eqs, pc);
    if d in defs {
      var k :| 0 <= k < |defs| && defs[k] == d;
      assert eqs[k] in eqs;
      var a: Word :| a in c.names && c.names[a] == eqs[k].name && eqs[k].literal == WordLiteral(a, true)
        && Least(c.names, a);
      WordReads(a, true);
    }
    if LeastOf(c.names, d.name, d.value) && !DefinedIn(body, d.name) {
      var k := EquOf(c, body, eqs, d.name);
      assert eqs[k] in eqs;
      var a: Word :| a in c.names && c.names[a] == eqs[k].name && eqs[k].literal == WordLiteral(a, true)
        && Least(c.names, a);
      WordReads(a, true);
      var v: Word := d.value;
      assert a == v by { assert !(a < v) && !(v < a); }
      assert defs[k] == d;
    }
  }

  lemma EquOf(c: Context, body: seq<Line>, eqs: seq<Line>, n: string) returns (k: nat)
    requires Releases(c, body, eqs) && !DefinedIn(body, n) && exists a <- c.names :: c.names[a] == n
    ensures k < |eqs| && eqs[k].name == n
  {
    hide Released;
    assert DefinedIn(body + eqs, n);
    var l :| l in body + eqs && (l.Label? || l.Equ?) && l.name == n;
    assert l !in body;
    k :| 0 <= k < |eqs| && eqs[k] == l;
  }

  lemma ReadyWithin(c: Context, placed: seq<L.Placed>)
    requires Ready(c, placed)
    ensures AllWithin(c, placed) && End(c) <= 65536
  {
  }

  lemma DefinedInParts(body: seq<Line>, eqs: seq<Line>, pc: int, d: Definition)
    ensures d in Definitions(body + eqs, pc) <==> d in Definitions(body, pc) || d in Definitions(eqs, pc + Size(body))
  {
    hide Definitions, Size;
    DefinitionsConcat(body, eqs, pc);
  }

  /** All definitions of the listing: its labels, and the least addresses of the other names. */
  lemma ListingDefines(c: Context, placed: seq<L.Placed>, end: int, eqs: seq<Line>, d: Definition)
    requires Ready(c, placed) && Chained(placed, c.origin, end) && L.Exact(placed)
    requires Releases(c, Render(c, placed), eqs)
    ensures d in Definitions(Render(c, placed) + eqs, c.origin) <==> StandsFor(c, placed, d.name, d.value)
  {
    hide *;
    ReadyWithin(c, placed);
    var body := Render(c, placed);
    DefinedInParts(body, eqs, c.origin, d);
    RenderLabels(c, placed, c.origin, end, d);
    EqusMean(c, body, eqs, c.origin + Size(body), d);
    LabelsDefined(c, placed, end, d.name);
    StandsForMeans(c, placed, d.name, d.value);
  }

  lemma StandsForMeans(c: Context, placed: seq<L.Placed>, n: string, v: int)
    ensures StandsFor(c, placed, n, v)
            <==> LabelPlaced(c, placed, n, v) || (!HasLabel(c, placed, n) && LeastOf(c.names, n, v))
  {
    hide LabelPlaced, HasLabel, LeastOf;
  }

  lemma LabelsDefined(c: Context, placed: seq<L.Placed>, end: int, n: string)
    requires Ready(c, placed) && Chained(placed, c.origin, end) && L.Exact(placed)
    ensures DefinedIn(Render(c, placed), n) <==> HasLabel(c, placed, n)
  {
    hide Ready, Render, Chained, L.Exact, Definitions, LabelPlaced, DefinedIn;
    ReadyWithin(c, placed);
    var body := Render(c, placed);
    DefinedNames(body, c.origin, n);
    if d :| d in Definitions(body, c.origin) && d.name == n {
      RenderLabels(c, placed, c.origin, end, d);
    }
    if a :| LabelPlaced(c, placed, n, a) {
      RenderLabels(c, placed, c.origin, end, Definition(n, a));
      assert Definition(n, a).name == n;
    }
  }

  lemma OnceIsApart(c: Context, placed: seq<L.Placed>, end: int)
    requires Ready(c, placed) && Chained(placed, c.origin, end) && L.Exact(placed)
    ensures DefinedOnce(Definitions(Render(c, placed), c.origin)) <==> LabelsApart(c, placed)
  {
    hide Ready, Render, Chained, L.Exact, Definitions, LabelPlaced, Claims;
    ReadyWithin(c, placed);
    var defs := Definitions(Render(c, placed), c.origin);
    RenderDefines(c, placed, c.origin, end);
    if DefinedOnce(defs) {
      forall n, a, b | LabelPlaced(c, placed, n, a) && LabelPlaced(c, placed, n, b) ensures a == b {
        RenderLabels(c, placed, c.origin, end, Definition(n, a));
        RenderLabels(c, placed, c.origin, end, Definition(n, b));
        var i :| 0 <= i < |defs| && defs[i] == Definition(n, a);
        var j :| 0 <= j < |defs| && defs[j] == Definition(n, b);
        assert i == j by {
          assert !(i < j) && !(j < i);
        }
      }
    }
    if LabelsApart(c, placed) {
      forall i, j | 0 <= i < j < |defs| ensures defs[i].name != defs[j].name {
        assert defs[i].value < defs[j].value && defs[i] in defs && defs[j] in defs;
        RenderLabels(c, placed, c.origin, end, defs[i]);
        RenderLabels(c, placed, c.origin, end, defs[j]);
      }
    }
  }

  /** The equ block adds no name twice. */
  lemma OnceWithEqus(c: Context, body: seq<Line>, eqs: seq<Line>, pc: int)
    requires NamesClaimed(c) && Releases(c, body, eqs)
    ensures DefinedOnce(Definitions(body + eqs, pc)) <==> DefinedOnce(Definitions(body, pc))
  {
    hide Definitions, DefinedIn, NamesClaimed, Claims, AllEqu;
    DefinitionsConcat(body, eqs, pc);
    EqusClaimed(c, body, eqs, pc + Size(body));
    var a, b := Definitions(body, pc), Definitions(eqs, pc + Size(body));
    forall d <- b ensures !Defines(a, d.name) {
      DefinedNames(body, pc, d.name);
    }
    hide Releases, Size;
    OnceConcat(a, b);
  }

  lemma OnceConcat(a: seq<Definition>, b: seq<Definition>)
    requires DefinedOnce(b) && forall d <- b :: !Defines(a, d.name)
    ensures DefinedOnce(a + b) <==> DefinedOnce(a)
  {
    if DefinedOnce(a + b) {
      forall i, j | 0 <= i < j < |a| ensures a[i].name != a[j].name {
        assert (a + b)[i] == a[i] && (a + b)[j] == a[j];
      }
    }
    forall i, j | 0 <= i < |a| && 0 <= j < |b| ensures a[i].name != b[j].name {
      assert a[i] in a && b[j] in b;
    }
  }

  lemma ValueIs(defs: seq<Definition>, n: string, v: int)
    requires DefinedOnce(defs)
    ensures n in Values(defs) && Values(defs)[n] == v <==> Definition(n, v) in defs
  {
    hide Values;
    ValuesAre(defs);
    if Definition(n, v) in defs {
      var i :| 0 <= i < |defs| && defs[i] == Definition(n, v);
      var j :| 0 <= j < |defs| && defs[j] == Definition(n, Values(defs)[n]);
      assert !(i < j) && !(j < i);
    }
  }

  /** With every name defined once, the printed names serve exactly when they stand for their operands. */
  lemma ServeIff(c: Context, placed: seq<L.Placed>, end: int, eqs: seq<Line>)
    requires Ready(c, placed) && Chained(placed, c.origin, end) && L.Exact(placed)
    requires Releases(c, Render(c, placed), eqs) && DefinedOnce(Definitions(Render(c, placed) + eqs, c.origin))
    ensures AllServe(c, placed, Values(Definitions(Render(c, placed) + eqs, c.origin))) <==> NamesServe(c, placed)
  {
    hide Ready, Render, Chained, L.Exact, Definitions, Values, StandsFor, Releases, DefinedOnce, ImageOf, PrintsName,
      Shown;
    ReadyWithin(c, placed);
    var defs := Definitions(Render(c, placed) + eqs, c.origin);
    forall n: string, v: int ensures n in Values(defs) && Values(defs)[n] == v <==> StandsFor(c, placed, n, v) {
      ValueIs(defs, n, v);
      ListingDefines(c, placed, end, eqs, Definition(n, v));
    }
  }

  lemma WordDefs(c: Context, defs: seq<Definition>)
    requires forall d <- defs :: Claims(c.objects, d.name, d.value)
    ensures WordValues(Values(defs))
  {
    hide Values;
    ValuesAre(defs);
    forall n <- Values(defs) ensures 0 <= Values(defs)[n] < 65536 {
      assert Definition(n, Values(defs)[n]) in defs;
    }
  }

  lemma ListingWords(c: Context, body: seq<Line>, eqs: seq<Line>, pc: int)
    requires NamesClaimed(c) && Releases(c, body, eqs)
    requires forall d <- Definitions(body, pc) :: Claims(c.objects, d.name, d.value)
    ensures WordValues(Values(Definitions(body + eqs, pc)))
  {
    hide Definitions, DefinedIn, NamesClaimed, Claims, AllEqu, Values, WordValues;
    DefinitionsConcat(body, eqs, pc);
    EqusClaimed(c, body, eqs, pc + Size(body));
    WordDefs(c, Definitions(body + eqs, pc));
  }

  lemma EqusFit(c: Context, eqs: seq<Line>, env: map<string, int>)
    requires AllEqu(c, eqs)
    ensures AllFit(eqs, env)
  {
    hide Released;
  }

  /** An exact listing assembles to the ROM exactly when it emits no alias of NOP, no label twice, and every
      printed operand name stands for its operand. */
  lemma ExactListing(c: Context, placed: seq<L.Placed>, eqs: seq<Line>)
    requires Ready(c, placed) && Chained(placed, c.origin, End(c)) && L.Exact(placed)
    requires Releases(c, Render(c, placed), eqs)
    ensures AssemblesTo(Render(c, placed) + eqs, c.origin, c.rom)
            <==> NoAlias(placed) && LabelsApart(c, placed) && NamesServe(c, placed)
  {
    var body := Render(c, placed);
    assert AllEqu(c, eqs) && NamesClaimed(c);
    hide Ready, Render, Chained, L.Exact, Definitions, Size, Values, Genuine, NoAlias, Assemble, NamesClaimed,
      AllWithin, AllFit, DefinedOnce, Releases, AllEqu, Claims, Readable, AllServe, NamesServe, LabelsApart, WordValues;
    ExactIsBelow(placed);
    RenderReadable(c, placed);
    EqusReadable(c, eqs);
    var env := Values(Definitions(body + eqs, c.origin));
    RenderDefines(c, placed, c.origin, End(c));
    ListingWords(c, body, eqs, c.origin);
    RenderBytes(c, placed, c.origin, End(c), env);
    EqusFit(c, eqs, env);
    FitsConcat(body, eqs, env);
    AssembledParts(body, eqs, c, env);
    assert c.rom[c.origin - c.origin..End(c) - c.origin] == c.rom;
    OnceWithEqus(c, body, eqs, c.origin);
    OnceIsApart(c, placed, End(c));
    if DefinedOnce(Definitions(body + eqs, c.origin)) {
      ServeIff(c, placed, End(c), eqs);
    }
  }

  /** The listing assembles to the ROM exactly when the walk is exact, no alias of NOP is emitted, no label is
      printed twice, and every printed operand name stands for its operand. */
  lemma ListingMeaning(c: Context, placed: seq<L.Placed>, eqs: seq<Line>)
    requires Ready(c, placed) && Chained(placed, c.origin, End(c)) && (forall p <- placed :: p.item.start <= p.at)
    requires Releases(c, Render(c, placed), eqs)
    ensures AssemblesTo(Render(c, placed) + eqs, c.origin, c.rom)
            <==> L.Exact(placed) && NoAlias(placed) && LabelsApart(c, placed) && NamesServe(c, placed)
    ensures L.Exact(placed) && NamesUsable(c.objects) ==> SymbolsCorrect(c, Render(c, placed) + eqs)
  {
    var body := Render(c, placed);
    assert AllEqu(c, eqs);
    hide Ready, Render, Chained, L.Exact, Definitions, Size, Values, Genuine, NamesUsable, NoAlias, Assemble,
      AllWithin, AllFit, DefinedOnce, Releases, AllEqu, SymbolsCorrect, AllReadable, LabelsApart, NamesServe;
    if L.Exact(placed) {
      ExactListing(c, placed, eqs);
      if NamesUsable(c.objects) {
        SymbolsRight(c, placed, End(c), eqs);
      }
    } else {
      RenderSize(c, placed, c.origin, End(c));
      AssembledParts(body, eqs, c, Values(Definitions(body + eqs, c.origin)));
    }
  }
}
