/** Whole BASIC programs (bas2txt/bas2asc.py): enbas writes linked line records,
    readbas walks them with a state machine and prints a listing. */
module BasicFile {
  import opened Numbers
  import opened Tokens
  import opened Tokenizer

  // ---- line numbers ----

  predicate Skipped(c: char) { IsDigit(c) || c == ' ' }

  /** The number get_linenumber accumulates over a run of digits and spaces. */
  function Digits(s: string): nat
  {
    if s == [] then 0
    else
      var n := Digits(s[..|s| - 1]);
      var c := s[|s| - 1];
      if IsDigit(c) then 10 * n + (c as int - '0' as int) else n
  }

  /** Where the text starts: the first character that is neither digit nor space, else the last one. */
  ghost predicate TextAt(s: string, text: nat)
  {
    && text < |s| && (forall j | 0 <= j < text :: Skipped(s[j]))
    && (Skipped(s[text]) ==> text == |s| - 1)
  }

  function NumberAt(s: string, text: nat): nat
    requires text < |s|
  {
    if Skipped(s[text]) then Digits(s) else Digits(s[..text])
  }

  method GetLineNumber(s: string) returns (number: nat, text: nat)
    requires s != []
    ensures TextAt(s, text) && number == NumberAt(s, text)
  {
    number, text := 0, 0;
    for k := 0 to |s|
      invariant forall j | 0 <= j < k :: Skipped(s[j])
      invariant number == Digits(s[..k]) && text == if k == 0 then 0 else k - 1
    {
      text := k;
      var c := s[k];
      assert s[..k + 1][..k] == s[..k];
      if IsDigit(c) {
        number := number * 10 + (c as int - '0' as int);
      } else if c != ' ' {
        return;
      }
    }
    assert s[..|s|] == s;
  }

  /** str(n). */
  function Decimal(n: nat): (d: string)
    ensures d != [] && forall j | 0 <= j < |d| :: IsDigit(d[j])
  {
    var last := ('0' as int + n % 10) as char;
    if n < 10 then [last] else Decimal(n / 10) + [last]
  }

  lemma {:induction false} DigitsOfDecimal(n: nat)
    ensures Digits(Decimal(n)) == n
  {
    var d := Decimal(n);
    if n >= 10 {
      DigitsOfDecimal(n / 10);
      assert d[..|d| - 1] == Decimal(n / 10);
    } else {
      assert d[..0] == [];
    }
  }

  /** A line as readbas prints it. */
  function ListingLine(number: nat, text: string): string { Decimal(number) + " " + text }

  lemma OneTextStart(s: string, a: nat, b: nat)
    requires TextAt(s, a) && TextAt(s, b) && !Skipped(s[b])
    ensures a == b
  {
  }

  /** A listing line parses back into its number and its text. */
  lemma ParseListingLine(n: nat, t: string, text: nat)
    requires t != [] && !Skipped(t[0]) && TextAt(ListingLine(n, t), text)
    ensures NumberAt(ListingLine(n, t), text) == n && ListingLine(n, t)[text..] == t
  {
    var s := ListingLine(n, t);
    var d := |Decimal(n)|;
    assert forall j | 0 <= j < d :: s[j] == Decimal(n)[j];
    assert s[d + 1] == t[0] && s[d] == ' ';
    OneTextStart(s, text, d + 1);
    assert s[..text] == Decimal(n) + " ";
    assert (Decimal(n) + " ")[..d] == Decimal(n);
    DigitsOfDecimal(n);
    assert s[text..] == t;
  }

  // ---- records ----

  datatype Record = Record(number: nat, codes: seq<int>)

  function RecordSize(r: Record): nat { |r.codes| + 5 }

  /** Link to the next record, line number, codes, zero. */
  function RecordBytes(r: Record, addr: nat): seq<int>
  {
    var next := addr + RecordSize(r);
    [next % 256, next / 256, r.number % 256, r.number / 256 % 256] + r.codes + [0]
  }

  function AllBytes(rs: seq<Record>, addr: nat): seq<int>
  {
    if rs == [] then [] else RecordBytes(rs[0], addr) + AllBytes(rs[1..], addr + RecordSize(rs[0]))
  }

  function EndAddress(rs: seq<Record>, addr: nat): nat
  {
    if rs == [] then addr else EndAddress(rs[1..], addr + RecordSize(rs[0]))
  }

  const BASE: nat := 0x4301

  function Padding(n: nat): seq<int> { seq(256 - n % 256, _ => 0) }

  /** The whole file. */
  function Image(rs: seq<Record>): seq<int>
  {
    var body := AllBytes(rs, BASE) + [0, 0];
    body + Padding(|body|)
  }

  // ---- readbas ----

  datatype Phase = Dummy0 | Dummy1 | LineNum0 | LineNum1 | Body | End

  datatype Reader = Reader(phase: Phase, fin: nat, number: nat, text: string, lines: seq<string>)

  function Read1(rd: Reader, c: nat): Reader
  {
    match rd.phase
    case Dummy0 => rd.(phase := Dummy1, fin := if c == 0 then rd.fin + 1 else rd.fin)
    case Dummy1 =>
      var fin := if c == 0 then rd.fin + 1 else rd.fin;
      rd.(phase := if fin == 3 then End else LineNum0, fin := fin, number := 0, text := "")
    case LineNum0 => rd.(phase := LineNum1, number := c)
    case LineNum1 => rd.(phase := Body, number := rd.number + 256 * c)
    case Body =>
      if c == 0 then rd.(phase := Dummy0, fin := 1, lines := rd.lines + [ListingLine(rd.number, rd.text)])
      else rd.(text := rd.text + DecodeCode(c))
    case End => rd
  }

  ghost predicate Bytes(b: seq<int>) { forall i | 0 <= i < |b| :: 0 <= b[i] < 256 }

  function ReadAll(rd: Reader, b: seq<int>): Reader
    requires Bytes(b)
    decreases |b|
  {
    if b == [] then rd else ReadAll(Read1(rd, b[0]), b[1..])
  }

  const START := Reader(Dummy0, 0, 0, "", [])

  method Readbas(b: seq<int>) returns (lines: seq<string>)
    requires Bytes(b)
    ensures lines == ReadAll(START, b).lines
  {
    hide Read1;
    var rd := START;
    for i := 0 to |b|
      invariant ReadAll(START, b) == ReadAll(rd, b[i..])
    {
      if rd.phase == End {
        EndAbsorbs(rd, b[i..]);
        return rd.lines;
      }
      assert b[i..][1..] == b[i + 1..];
      rd := Read1(rd, b[i]);
    }
    assert b[|b|..] == [];
    lines := rd.lines;
  }

  lemma {:induction false} EndAbsorbs(rd: Reader, b: seq<int>)
    requires rd.phase == End && Bytes(b)
    ensures ReadAll(rd, b) == rd
    decreases |b|
  {
    if b != [] {
      EndAbsorbs(rd, b[1..]);
    }
  }

  lemma {:induction false} ReadConcat(rd: Reader, a: seq<int>, b: seq<int>)
    requires Bytes(a) && Bytes(b)
    ensures Bytes(a + b) && ReadAll(rd, a + b) == ReadAll(ReadAll(rd, a), b)
    decreases |a|
  {
    hide Read1;
    if a == [] {
      assert a + b == b;
    } else {
      ReadConcat(Read1(rd, a[0]), a[1..], b);
      assert (a + b)[1..] == a[1..] + b;
    }
  }

  lemma {:induction false} ReadCodes(rd: Reader, codes: seq<int>)
    requires rd.phase == Body && Codes(codes)
    ensures Bytes(codes) && ReadAll(rd, codes) == rd.(text := rd.text + Decode(codes))
    decreases |codes|
  {
    hide DecodeCode;
    if codes == [] {
      assert rd.text + [] == rd.text;
    } else {
      var d := DecodeCode(codes[0]);
      ReadCodes(rd.(text := rd.text + d), codes[1..]);
      assert rd.text + d + Decode(codes[1..]) == rd.text + (d + Decode(codes[1..]));
    }
  }

  /** One record becomes one listing line, provided its link fits and its high byte is not zero. */
  lemma ReadRecord(rd: Reader, r: Record, addr: nat)
    requires rd.phase == Dummy0 && rd.fin <= 1 && Codes(r.codes) && 256 <= addr + RecordSize(r) < 65536
    ensures Bytes(RecordBytes(r, addr))
    ensures var q := ReadAll(rd, RecordBytes(r, addr));
            q.phase == Dummy0 && q.fin == 1 && q.lines == rd.lines + [ListingLine(r.number % 65536, Decode(r.codes))]
  {
    hide Decode, ListingLine;
    var next := addr + RecordSize(r);
    var a := [next % 256, next / 256, r.number % 256, r.number / 256 % 256];
    var h := ReadAll(rd, a);
    assert h.phase == Body && h.number == r.number % 65536 && h.text == "" && h.lines == rd.lines by {
      ReadHeader(rd, next, r.number);
    }
    ReadCodes(h, r.codes);
    ReadConcat(rd, a, r.codes);
    assert "" + Decode(r.codes) == Decode(r.codes);
    ReadConcat(rd, a + r.codes, [0]);
    ReadZero(ReadAll(rd, a + r.codes));
  }

  lemma ReadZero(rd: Reader)
    ensures ReadAll(rd, [0]) == Read1(rd, 0)
  {
    hide Read1;
    assert ReadAll(rd, [0]) == ReadAll(Read1(rd, 0), [0][1..]);
  }

  lemma ReadHeader(rd: Reader, next: nat, number: nat)
    requires rd.phase == Dummy0 && rd.fin <= 1 && 256 <= next < 65536
    ensures var a := [next % 256, next / 256, number % 256, number / 256 % 256];
            && Bytes(a)
            && var h := ReadAll(rd, a);
            h.phase == Body && h.number == number % 65536 && h.text == "" && h.lines == rd.lines
  {
    hide ListingLine, DecodeCode;
    var a := [next % 256, next / 256, number % 256, number / 256 % 256];
    var r1 := Read1(rd, a[0]);
    var r2 := Read1(r1, a[1]);
    var r3 := Read1(r2, a[2]);
    var r4 := Read1(r3, a[3]);
    assert a[1..] == [a[1], a[2], a[3]];
    assert ReadAll(rd, a) == ReadAll(r1, [a[1], a[2], a[3]]);
    assert ReadAll(r1, [a[1], a[2], a[3]]) == ReadAll(r2, [a[2], a[3]]) by {
      assert [a[1], a[2], a[3]][1..] == [a[2], a[3]];
    }
    assert ReadAll(r2, [a[2], a[3]]) == ReadAll(r3, [a[3]]) by { assert [a[2], a[3]][1..] == [a[3]]; }
    assert ReadAll(r3, [a[3]]) == ReadAll(r4, []) by { assert [a[3]][1..] == []; }
    assert r4.number == number % 256 + 256 * (number / 256 % 256);
    WordParts(number);
  }

  lemma WordParts(n: nat)
    ensures n % 256 + 256 * (n / 256 % 256) == n % 65536
  {
    DivUnique(n, 65536, n / 256 / 256, 256 * (n / 256 % 256) + n % 256);
  }

  // ---- whole images ----

  ghost predicate GoodRecords(rs: seq<Record>) { forall k | 0 <= k < |rs| :: Codes(rs[k].codes) }

  function Listing(rs: seq<Record>): seq<string>
  {
    seq(|rs|, k requires 0 <= k < |rs| => ListingLine(rs[k].number % 65536, Decode(rs[k].codes)))
  }

  lemma {:induction false} EndAddressGrows(rs: seq<Record>, addr: nat)
    ensures EndAddress(rs, addr) >= addr + 5 * |rs|
    decreases |rs|
  {
    if rs != [] {
      EndAddressGrows(rs[1..], addr + RecordSize(rs[0]));
    }
  }

  lemma {:induction false} ReadRecords(rd: Reader, rs: seq<Record>, addr: nat)
    requires rd.phase == Dummy0 && rd.fin <= 1 && (rs == [] ==> rd.fin == 1)
    requires GoodRecords(rs) && 256 <= addr && EndAddress(rs, addr) < 65536
    ensures Bytes(AllBytes(rs, addr))
    ensures var q := ReadAll(rd, AllBytes(rs, addr));
            q.phase == Dummy0 && q.fin == 1 && q.lines == rd.lines + Listing(rs)
    decreases |rs|
  {
    hide RecordBytes, Decode, ListingLine, Read1, Codes;
    if rs == [] {
      assert rd.lines + Listing(rs) == rd.lines;
    } else {
      var next := addr + RecordSize(rs[0]);
      EndAddressGrows(rs[1..], next);
      ReadRecord(rd, rs[0], addr);
      var q := ReadAll(rd, RecordBytes(rs[0], addr));
      ReadRecords(q, rs[1..], next);
      ReadConcat(rd, RecordBytes(rs[0], addr), AllBytes(rs[1..], next));
      assert rd.lines + Listing(rs) == q.lines + Listing(rs[1..]);
    }
  }

  lemma ReadTwo(rd: Reader)
    ensures ReadAll(rd, [0, 0]) == Read1(Read1(rd, 0), 0)
  {
    hide Read1;
    assert [0, 0][1..] == [0];
    assert ReadAll(rd, [0, 0]) == ReadAll(Read1(rd, 0), [0]);
    ReadZero(Read1(rd, 0));
  }

  /** Reading back a nonempty program image gives one line per record. */
  lemma ReadImage(rs: seq<Record>)
    requires rs != [] && GoodRecords(rs) && EndAddress(rs, BASE) < 65536
    ensures Bytes(Image(rs)) && ReadAll(START, Image(rs)).lines == Listing(rs)
  {
    hide AllBytes, Listing, GoodRecords, EndAddress, ListingLine;
    var body := AllBytes(rs, BASE);
    ReadRecords(START, rs, BASE);
    var q := ReadAll(START, body);
    ReadConcat(START, body, [0, 0]);
    ReadTwo(q);
    ReadConcat(START, body + [0, 0], Padding(|body + [0, 0]|));
    EndAbsorbs(ReadAll(START, body + [0, 0]), Padding(|body + [0, 0]|));
    assert [] + Listing(rs) == Listing(rs);
  }

  function Zeros(n: nat): seq<int> { seq(n, _ => 0) }

  lemma EmptyImage()
    ensures Image([]) == [0, 0] + ([0, 0] + ([0] + ([0, 0] + Zeros(249))))
  {
    assert AllBytes([], BASE) + [0, 0] == [0, 0];
    assert Padding(2) == [0, 0] + ([0] + ([0, 0] + Zeros(249)));
  }

  /** An empty program does not read back empty: the end marker is not recognised at the start. */
  lemma EmptyProgramGainsLine()
    ensures Bytes(Image([])) && ReadAll(START, Image([])).lines == ["0 "]
  {
    EmptyImage();
    hide ReadAll, Image, Zeros;
    assert Bytes(Zeros(249)) by { ZerosAreBytes(249); }
    var t3 := [0, 0] + Zeros(249);
    var t2 := [0] + t3;
    ReadTwo(START);
    ReadConcat(START, [0, 0], [0, 0] + t2);
    var a := Read1(Read1(START, 0), 0);
    ReadTwo(a);
    ReadConcat(a, [0, 0], t2);
    var c := Read1(Read1(a, 0), 0);
    ReadZero(c);
    ReadConcat(c, [0], t3);
    var b := Read1(c, 0);
    assert Decimal(0) == "0";
    assert "0" + " " + "" == "0 ";
    assert b.lines == [] + [ListingLine(0, "")];
    ReadTwo(b);
    ReadConcat(b, [0, 0], Zeros(249));
    EndAbsorbs(Read1(Read1(b, 0), 0), Zeros(249));
  }

  lemma ZerosAreBytes(n: nat)
    ensures Bytes(Zeros(n))
  {
  }

  // ---- enbas ----

  /** Blank lines raise IndexError, values beyond a byte raise ValueError. */
  datatype Outcome = Ok(bytes: seq<int>) | BlankLine | NotAByte

  /** The record of line s: its number, and codes that decode to its text unless the tokenizer misreads it. */
  ghost predicate RecordOf(s: string, r: Record)
  {
    exists text: nat :: TextAt(s, text) && r.number == NumberAt(s, text)
      && (AlphabetText(s) ==> Codes(r.codes))
      && (AlphabetText(s) && !Misread(s, text) ==> Decode(r.codes) == s[text..])
      && (Misread(s, text) ==> Decode(r.codes) != s[text..])
      && |r.codes| <= |s| + 1 - text
  }

  ghost predicate RecordsOf(lines: seq<string>, rs: seq<Record>)
  {
    |rs| == |lines| && forall k | 0 <= k < |rs| :: RecordOf(lines[k], rs[k])
  }

  /** bytearray(...) accepts only byte values. */
  method CheckBytes(b: seq<int>) returns (ok: bool)
    ensures ok <==> Bytes(b)
  {
    for i := 0 to |b|
      invariant Bytes(b[..i])
    {
      if !(0 <= b[i] < 256) {
        return false;
      }
    }
    assert b[..|b|] == b;
    ok := true;
  }

  lemma {:induction false} AllBytesAppend(rs: seq<Record>, r: Record, addr: nat)
    ensures AllBytes(rs + [r], addr) == AllBytes(rs, addr) + RecordBytes(r, EndAddress(rs, addr))
    ensures EndAddress(rs + [r], addr) == EndAddress(rs, addr) + RecordSize(r)
    decreases |rs|
  {
    hide RecordBytes;
    if rs == [] {
      assert [r][1..] == [];
    } else {
      AllBytesAppend(rs[1..], r, addr + RecordSize(rs[0]));
      assert (rs + [r])[1..] == rs[1..] + [r];
    }
  }

  method Enbas(lines: seq<string>) returns (r: Outcome, ghost rs: seq<Record>)
    ensures r.BlankLine? <==> exists k | 0 <= k < |lines| :: lines[k] == ""
    ensures !r.BlankLine? ==> RecordsOf(lines, rs)
    ensures r.Ok? ==> r.bytes == Image(rs) && Bytes(r.bytes)
    ensures r.NotAByte? ==> !Bytes(Image(rs))
  {
    hide RecordOf, AllBytes, RecordBytes;
    rs := [];
    var result := [];
    var addr := BASE;
    AllBytesNone();
    for k := 0 to |lines|
      invariant forall j | 0 <= j < k :: lines[j] != ""
      invariant RecordsOf(lines[..k], rs)
      invariant result == AllBytes(rs, BASE) && addr == EndAddress(rs, BASE)
    {
      if lines[k] == "" {
        return BlankLine, rs;
      }
      var number, text := GetLineNumber(lines[k]);
      var codes := Tokenize(lines[k], text);
      ghost var rec := Record(number, codes);
      assert RecordOf(lines[k], rec) by { Witnessed(lines[k], rec, text); }
      AllBytesAppend(rs, rec, BASE);
      addr := addr + (|codes| + 1 + 4);
      result := result + ([addr % 256, addr / 256, number % 256, number / 256 % 256] + codes + [0]);
      assert result == AllBytes(rs + [rec], BASE) by { RecordLayout(rec, EndAddress(rs, BASE)); }
      rs := rs + [rec];
      assert lines[..k + 1] == lines[..k] + [lines[k]];
    }
    assert lines[..|lines|] == lines;
    result := result + [0, 0];
    result := result + seq(256 - |result| % 256, _ => 0);
    assert result == Image(rs) by { PaddingIs(|AllBytes(rs, BASE) + [0, 0]|); }
    var ok := CheckBytes(result);
    r := if ok then Ok(result) else NotAByte;
  }

  lemma AllBytesNone()
    ensures AllBytes([], BASE) == [] && EndAddress([], BASE) == BASE
  {
  }

  lemma PaddingIs(n: nat)
    ensures Padding(n) == seq(256 - n % 256, _ => 0)
  {
  }

  lemma RecordLayout(r: Record, addr: nat)
    ensures RecordBytes(r, addr) == [(addr + RecordSize(r)) % 256, (addr + RecordSize(r)) / 256, r.number % 256,
                                     r.number / 256 % 256] + r.codes + [0]
  {
  }

  lemma Witnessed(s: string, r: Record, text: nat)
    requires TextAt(s, text) && r.number == NumberAt(s, text)
    requires AlphabetText(s) ==> Codes(r.codes)
    requires AlphabetText(s) && !Misread(s, text) ==> Decode(r.codes) == s[text..]
    requires Misread(s, text) ==> Decode(r.codes) != s[text..]
    requires |r.codes| <= |s| + 1 - text
    ensures RecordOf(s, r)
  {
  }

  // ---- the round trip ----

  lemma LinkTooBig(rs: seq<Record>)
    requires rs != [] && EndAddress(rs, BASE) >= 65536
    ensures !Bytes(AllBytes(rs, BASE))
  {
    hide AllBytes, EndAddress;
    var n := |rs| - 1;
    var r, before := rs[n], AllBytes(rs[..n], BASE);
    assert rs == rs[..n] + [r];
    AllBytesAppend(rs[..n], r, BASE);
    var link := EndAddress(rs, BASE) / 256;
    assert AllBytes(rs, BASE)[|before| + 1] == link >= 256;
  }

  /** With codes in range, the image is made of bytes exactly when its end address fits 16 bits. */
  lemma ImageFits(rs: seq<Record>)
    requires rs != [] && GoodRecords(rs)
    ensures Bytes(Image(rs)) <==> EndAddress(rs, BASE) < 65536
  {
    hide GoodRecords, EndAddress, AllBytes, ReadAll;
    if EndAddress(rs, BASE) < 65536 {
      ReadImage(rs);
    } else {
      LinkTooBig(rs);
      var i :| 0 <= i < |AllBytes(rs, BASE)| && !(0 <= AllBytes(rs, BASE)[i] < 256);
      assert Image(rs)[i] == AllBytes(rs, BASE)[i];
    }
  }

  /** The line readbas should print for source line s. */
  ghost predicate ListedAs(s: string, out: string)
  {
    exists text: nat :: TextAt(s, text) && out == ListingLine(NumberAt(s, text) % 65536, s[text..])
  }

  ghost predicate LineMisread(s: string) { exists text: nat :: TextAt(s, text) && Misread(s, text) }

  /** The line `10 LIST` is one of those: it lists as LLIST. With RIGHT$ behind LIST it is not. */
  lemma ListExamples()
    ensures LineMisread("10 LIST") && !LineMisread("10 LISTRIGHT$")
  {
    var s := "10 LIST";
    assert TextAt(s, 3) && s[3..7] == "LIST";
    forall k: nat | k < KEYWORDS ensures !LongAt(s, 7, Keyword(k)) {
      hide Keyword;
    }
    var t := "10 LISTRIGHT$";
    assert TextAt(t, 3) && LongAt(t, 7, Keyword(68)) by {
      assert Keyword(68) == "RIGHT$" && t[7..13] == "RIGHT$";
    }
    forall text: nat | TextAt(t, text) ensures !Misread(t, text) {
      hide Keyword;
      TextAtUnique(t, text, 3);
      assert LongAfterList(t, 3);
    }
  }

  lemma TextAtUnique(s: string, a: nat, b: nat)
    requires TextAt(s, a) && TextAt(s, b)
    ensures a == b
  {
  }

  lemma ListingTextDiffers(n: nat, a: string, b: string)
    ensures a != b ==> ListingLine(n, a) != ListingLine(n, b)
  {
    var d := Decimal(n) + " ";
    assert ListingLine(n, a)[|d|..] == a && ListingLine(n, b)[|d|..] == b;
  }

  lemma LineRoundTrip(s: string, r: Record)
    requires RecordOf(s, r) && AlphabetText(s)
    ensures ListedAs(s, ListingLine(r.number % 65536, Decode(r.codes))) <==> !LineMisread(s)
  {
    hide AlphabetText, Misread, Decode, ListingLine, Codes, NumberAt, Skipped;
    var text: nat :| TextAt(s, text) && r.number == NumberAt(s, text)
      && (AlphabetText(s) && !Misread(s, text) ==> Decode(r.codes) == s[text..])
      && (Misread(s, text) ==> Decode(r.codes) != s[text..]);
    assert forall t: nat :: TextAt(s, t) ==> t == text by {
      forall t: nat | TextAt(s, t) ensures t == text { TextAtUnique(s, t, text); }
    }
    ListingTextDiffers(r.number % 65536, Decode(r.codes), s[text..]);
    if Misread(s, text) {
      assert LineMisread(s);
      assert !ListedAs(s, ListingLine(r.number % 65536, Decode(r.codes)));
    } else {
      assert ListedAs(s, ListingLine(r.number % 65536, Decode(r.codes)));
    }
  }

  lemma GoodFromLines(lines: seq<string>, rs: seq<Record>)
    requires RecordsOf(lines, rs) && forall k | 0 <= k < |lines| :: AlphabetText(lines[k])
    ensures GoodRecords(rs)
  {
    hide AlphabetText, Codes, Misread, Decode, TextAt;
    forall k | 0 <= k < |rs| ensures Codes(rs[k].codes) {
      assert RecordOf(lines[k], rs[k]);
    }
  }

  /** What the lines need at most: keywords only make them shorter. */
  function SizeBound(lines: seq<string>): nat { if lines == [] then 0 else |lines[0]| + 6 + SizeBound(lines[1..]) }

  lemma {:induction false} EndWithin(lines: seq<string>, rs: seq<Record>, addr: nat)
    requires RecordsOf(lines, rs)
    ensures EndAddress(rs, addr) <= addr + SizeBound(lines)
  {
    hide TextAt, NumberAt, AlphabetText, Codes, Misread, Decode;
    if rs != [] {
      assert RecordOf(lines[0], rs[0]);
      EndWithin(lines[1..], rs[1..], addr + RecordSize(rs[0]));
    }
  }

  /** enbas then readbas on a program over the token alphabet: every line comes back as number, space,
      text, exactly except where the tokenizer misreads a leading LIST; it fails only by size. */
  method RoundTrip(lines: seq<string>) returns (r: Outcome, listing: seq<string>, ghost rs: seq<Record>)
    requires lines != [] && forall k | 0 <= k < |lines| :: lines[k] != "" && AlphabetText(lines[k])
    ensures RecordsOf(lines, rs) && !r.BlankLine?
    ensures r.Ok? <==> EndAddress(rs, BASE) < 65536
    ensures BASE + SizeBound(lines) < 65536 ==> r.Ok?
    ensures r.Ok? ==>
              && |listing| == |lines|
              && forall k | 0 <= k < |lines| :: ListedAs(lines[k], listing[k]) <==> !LineMisread(lines[k])
  {
    hide AlphabetText, RecordOf, ListedAs, LineMisread, Image, EndAddress, GoodRecords, ReadAll, ListingLine, Decode;
    r, rs := Enbas(lines);
    listing := [];
    GoodFromLines(lines, rs);
    ImageFits(rs);
    EndWithin(lines, rs, BASE);
    if r.Ok? {
      listing := Readbas(r.bytes);
      ReadImage(rs);
      forall k | 0 <= k < |lines| ensures ListedAs(lines[k], listing[k]) <==> !LineMisread(lines[k]) {
        LineRoundTrip(lines[k], rs[k]);
      }
    }
  }

  /** On a line already in listing form the round trip is the identity. */
  lemma ListingLineIsFixed(n: nat, t: string, out: string)
    requires n < 65536 && t != [] && !Skipped(t[0]) && ListedAs(ListingLine(n, t), out)
    ensures out == ListingLine(n, t)
  {
    var s := ListingLine(n, t);
    var text: nat :| TextAt(s, text) && out == ListingLine(NumberAt(s, text) % 65536, s[text..]);
    ParseListingLine(n, t, text);
  }
}
