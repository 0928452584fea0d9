/** Numbers as the exporter prints them (hexLiteral, formatByte, toLower in debugger/export/asm_exporter.cpp)
    and as the assembler reads them. */
module Literals {
  import opened Words

  /** One digit, in upper or lower case. */
  function HexDigit(d: nat, upper: bool): char
    requires d < 16
  {
    if d < 10 then '0' + d as char else if upper then 'A' + (d - 10) as char else 'a' + (d - 10) as char
  }

  predicate IsHexLetter(c: char) { 'A' <= c <= 'F' || 'a' <= c <= 'f' }

  predicate IsHexDigit(c: char) { '0' <= c <= '9' || IsHexLetter(c) }

  predicate IsHex(s: string) { forall i | 0 <= i < |s| :: IsHexDigit(s[i]) }

  /** "%0wX" for values that fit into w digits, or the same lower-cased. */
  function Hex(v: nat, w: nat, upper: bool): (s: string)
    ensures |s| == w && IsHex(s)
  {
    if w == 0 then "" else Hex(v / 16, w - 1, upper) + [HexDigit(v % 16, upper)]
  }

  /** A leading letter is guarded by a zero, and h ends the number. */
  function HexLiteral(digits: string): string
  {
    (if digits != "" && IsHexLetter(digits[0]) then "0" else "") + digits + "h"
  }

  function ByteLiteral(b: Byte, upper: bool): string { HexLiteral(Hex(b, 2, upper)) }

  function WordLiteral(w: Word, upper: bool): string { HexLiteral(Hex(w, 4, upper)) }

  // ---- reading ----

  function ReadDigit(c: char): nat
    requires IsHexDigit(c)
  {
    if c <= '9' then (c - '0') as nat else if c <= 'F' then (c - 'A') as nat + 10 else (c - 'a') as nat + 10
  }

  function ReadHex(s: string): nat
    requires IsHex(s)
  {
    if s == "" then 0 else 16 * ReadHex(s[..|s| - 1]) + ReadDigit(s[|s| - 1])
  }

  /** A literal starts with a decimal digit, or it would be a symbol, and ends in h, or it would be decimal. */
  predicate IsLiteral(s: string)
  {
    |s| >= 2 && '0' <= s[0] <= '9' && s[|s| - 1] == 'h' && IsHex(s[..|s| - 1])
  }

  function ReadLiteral(s: string): nat { if IsLiteral(s) then ReadHex(s[..|s| - 1]) else 0 }

  function Pow16(w: nat): nat { if w == 0 then 1 else 16 * Pow16(w - 1) }

  lemma DigitReads(d: nat, upper: bool)
    requires d < 16
    ensures ReadDigit(HexDigit(d, upper)) == d
  {
  }

  lemma {:induction false} HexReads(v: nat, w: nat, upper: bool)
    requires v < Pow16(w)
    ensures ReadHex(Hex(v, w, upper)) == v
  {
    hide HexDigit, ReadDigit, IsHexDigit;
    if w > 0 {
      HexReads(v / 16, w - 1, upper);
      DigitReads(v % 16, upper);
      var s := Hex(v, w, upper);
      assert s[..|s| - 1] == Hex(v / 16, w - 1, upper);
    }
  }

  lemma {:induction false} LeadingZero(s: string)
    requires IsHex(s)
    ensures IsHex("0" + s) && ReadHex("0" + s) == ReadHex(s)
  {
    if s != "" {
      LeadingZero(s[..|s| - 1]);
      assert ("0" + s)[..|s|] == "0" + s[..|s| - 1];
    } else {
      assert "0" + s == "0" && "0"[..0] == "";
      assert ReadHex("0"[..0]) == 0;
    }
  }

  /** Every number the exporter prints, in either case, is a literal and reads as itself. */
  lemma HexLiteralReads(v: nat, w: nat, upper: bool)
    requires w > 0 && v < Pow16(w)
    ensures var s := HexLiteral(Hex(v, w, upper)); IsLiteral(s) && ReadLiteral(s) == v
  {
    hide Hex, ReadHex;
    var d := Hex(v, w, upper);
    var s := HexLiteral(d);
    HexReads(v, w, upper);
    LeadingZero(d);
    assert s[..|s| - 1] == if IsHexLetter(d[0]) then "0" + d else d;
  }

  lemma Powers()
    ensures Pow16(2) == 256 && Pow16(4) == 65536
  {
    assert Pow16(2) == 256;
  }

  lemma ByteReads(b: Byte, upper: bool)
    ensures IsLiteral(ByteLiteral(b, upper)) && ReadLiteral(ByteLiteral(b, upper)) == b
  {
    Powers();
    HexLiteralReads(b, 2, upper);
  }

  lemma WordReads(w: Word, upper: bool)
    ensures IsLiteral(WordLiteral(w, upper)) && ReadLiteral(WordLiteral(w, upper)) == w
  {
    Powers();
    HexLiteralReads(w, 4, upper);
  }

  lemma HexInjective(a: Word, b: Word)
    requires Hex(a, 4, true) == Hex(b, 4, true)
    ensures a == b
  {
    Powers();
    HexReads(a, 4, true);
    HexReads(b, 4, true);
  }
}
