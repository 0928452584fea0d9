/** The token alphabet of Vector-06C BASIC (bas2txt/bas2asc.py): character codes
    20..7F hexadecimal, where 60..7E are Cyrillic letters, and keyword codes from 80. */
module Tokens {

  const KEYWORDS: nat := 101

  /** Tokens.Words, in order. */
  function Keyword(k: nat): string
    requires k < KEYWORDS
  {
    match k
    case 0 => "CLS" case 1 => "FOR" case 2 => "NEXT" case 3 => "DATA" case 4 => "INPUT" case 5 => "DIM"
    case 6 => "READ" case 7 => "CUR" case 8 => "GOTO" case 9 => "RUN" case 10 => "IF" case 11 => "RESTORE"
    case 12 => "GOSUB" case 13 => "RETURN" case 14 => "REM" case 15 => "STOP" case 16 => "OUT"
    case 17 => "ON" case 18 => "PLOT" case 19 => "LINE" case 20 => "POKE" case 21 => "PRINT" case 22 => "DEF"
    case 23 => "CONT" case 24 => "LIST" case 25 => "CLEAR" case 26 => "CLOAD" case 27 => "CSAVE"
    case 28 => "NEW" case 29 => "TAB(" case 30 => "TO" case 31 => "SPC(" case 32 => "FN" case 33 => "THEN"
    case 34 => "NOT" case 35 => "STEP" case 36 => "+" case 37 => "-" case 38 => "*" case 39 => "/"
    case 40 => "^" case 41 => "AND" case 42 => "OR" case 43 => ">" case 44 => "=" case 45 => "<"
    case 46 => "SGN" case 47 => "INT" case 48 => "ABS" case 49 => "USR" case 50 => "FRE" case 51 => "INP"
    case 52 => "POS" case 53 => "SQR" case 54 => "RND" case 55 => "LOG" case 56 => "EXP" case 57 => "COS"
    case 58 => "SIN" case 59 => "TAN" case 60 => "ATN" case 61 => "PEEK" case 62 => "LEN" case 63 => "STR$"
    case 64 => "VAL" case 65 => "ASC" case 66 => "CHR$" case 67 => "LEFT$" case 68 => "RIGHT$"
    case 69 => "MID$" case 70 => "POINT" case 71 => "INKEY$" case 72 => "AT" case 73 => "&" case 74 => "BEEP"
    case 75 => "PAUSE" case 76 => "VERIFY" case 77 => "HOME" case 78 => "EDIT" case 79 => "DELETE"
    case 80 => "MERGE" case 81 => "AUTO" case 82 => "HIMEM" case 83 => "@" case 84 => "ASN" case 85 => "ADDR"
    case 86 => "PI" case 87 => "RENUM" case 88 => "ACS" case 89 => "LG" case 90 => "LPRINT"
    case 91 => "LLIST" case 92 => "SCREEN" case 93 => "COLOR" case 94 => "GET" case 95 => "PUT"
    case 96 => "BSAVE" case 97 => "BLOAD" case 98 => "PLAY" case 99 => "PAINT" case _ => "CIRCLE"
  }

  ghost predicate IsKeyword(w: string) { exists k: nat | k < KEYWORDS :: Keyword(k) == w }

  /** Code point of the character shown for code 60+k. */
  function CyrillicChar(k: nat): (u: int)
    requires k < 31
    ensures 0x410 <= u < 0x430
  {
    match k
    case 0 => 0x42E case 1 => 0x410 case 2 => 0x411 case 3 => 0x426 case 4 => 0x414 case 5 => 0x415
    case 6 => 0x424 case 7 => 0x413 case 8 => 0x425 case 9 => 0x418 case 10 => 0x419 case 11 => 0x41A
    case 12 => 0x41B case 13 => 0x41C case 14 => 0x41D case 15 => 0x41E case 16 => 0x41F case 17 => 0x42F
    case 18 => 0x420 case 19 => 0x421 case 20 => 0x422 case 21 => 0x423 case 22 => 0x416 case 23 => 0x412
    case 24 => 0x42C case 25 => 0x42B case 26 => 0x417 case 27 => 0x428 case 28 => 0x42D case 29 => 0x429
    case _ => 0x427
  }

  /** Its position among the Cyrillic letters of Tokens.Chars, or -1. */
  function CyrillicIndex(u: int): (k: int)
    ensures -1 <= k < 31
  {
    match u
    case 0x42E => 0 case 0x410 => 1 case 0x411 => 2 case 0x426 => 3 case 0x414 => 4 case 0x415 => 5
    case 0x424 => 6 case 0x413 => 7 case 0x425 => 8 case 0x418 => 9 case 0x419 => 10 case 0x41A => 11
    case 0x41B => 12 case 0x41C => 13 case 0x41D => 14 case 0x41E => 15 case 0x41F => 16 case 0x42F => 17
    case 0x420 => 18 case 0x421 => 19 case 0x422 => 20 case 0x423 => 21 case 0x416 => 22 case 0x412 => 23
    case 0x42C => 24 case 0x42B => 25 case 0x417 => 26 case 0x428 => 27 case 0x42D => 28 case 0x429 => 29
    case 0x427 => 30
    case _ => -1
  }

  lemma CyrillicFound(u: int)
    requires CyrillicIndex(u) >= 0
    ensures CyrillicChar(CyrillicIndex(u)) == u
  {
  }

  /** Tokens.chars on one character: its code in Tokens.Chars, else its own code point. */
  function EncodeChar(c: char): (code: int)
    ensures 0 <= code
  {
    var u := c as int;
    if 0x20 <= u < 0x60 then u
    else if CyrillicIndex(u) >= 0 then 0x60 + CyrillicIndex(u)
    else u
  }

  function EncodeChars(text: string): (codes: seq<int>)
    ensures |codes| == |text|
  {
    seq(|text|, i requires 0 <= i < |text| => EncodeChar(text[i]))
  }

  /** What readbas prints for a nonzero byte of a line; other numbers are not line bytes. */
  function DecodeCode(c: int): string
  {
    if !(0 < c < 256) then []
    else if 0x60 <= c < 0x7F then [CyrillicChar(c - 0x60) as char]
    else if c < 0x80 || c > 228 then [c as char]
    else Keyword(c - 0x80)
  }

  ghost predicate Codes(codes: seq<int>) { forall i | 0 <= i < |codes| :: 0 < codes[i] < 256 }

  function Decode(codes: seq<int>): string
  {
    if codes == [] then [] else DecodeCode(codes[0]) + Decode(codes[1..])
  }

  /** Characters the code table can express: control characters, ASCII 20..5F, the 31 Cyrillic
      letters, DEL, and the eight-bit characters above the keyword codes. */
  predicate InAlphabet(c: char)
  {
    var u := c as int;
    (0 < u < 0x60) || CyrillicIndex(u) >= 0 || u == 127 || 228 < u < 256
  }

  ghost predicate AlphabetText(s: string) { forall i | 0 <= i < |s| :: InAlphabet(s[i]) }

  /** The alphabet is exactly the set of characters that survive encoding and decoding. */
  lemma AlphabetExact(c: char)
    ensures InAlphabet(c) <==> 0 < EncodeChar(c) < 256 && DecodeCode(EncodeChar(c)) == [c]
  {
    hide Keyword;
    var u := c as int;
    if CyrillicIndex(u) >= 0 {
      CyrillicFound(u);
    } else if 0x60 <= u < 0x7F {
      assert DecodeCode(u)[0] as int == CyrillicChar(u - 0x60);
    } else if 0x80 <= u <= 228 {
      KeywordIsAscii(u - 0x80);
    }
  }

  lemma KeywordIsAscii(k: nat)
    requires k < KEYWORDS
    ensures Keyword(k) != [] && Keyword(k)[0] as int < 0x60
  {
    if k < 25 { } else if k < 50 { } else if k < 75 { } else { }
  }

  lemma {:induction false} DecodeConcat(a: seq<int>, b: seq<int>)
    ensures Decode(a + b) == Decode(a) + Decode(b)
  {
    hide DecodeCode, Decode;
    DecodeStep(a);
    if a == [] {
      assert a + b == b;
    } else {
      DecodeStep(a + b);
      DecodeConcat(a[1..], b);
      assert (a + b)[1..] == a[1..] + b;
    }
  }

  lemma DecodeStep(codes: seq<int>)
    ensures Decode(codes) == if codes == [] then [] else DecodeCode(codes[0]) + Decode(codes[1..])
  {
    hide DecodeCode;
  }

  lemma {:induction false} DecodeEncodeChars(text: string)
    requires AlphabetText(text)
    ensures Codes(EncodeChars(text)) && Decode(EncodeChars(text)) == text
  {
    if text == [] {
    } else {
      AlphabetExact(text[0]);
      DecodeEncodeChars(text[1..]);
      assert EncodeChars(text) == [EncodeChar(text[0])] + EncodeChars(text[1..]);
      assert Decode(EncodeChars(text)) == DecodeCode(EncodeChar(text[0])) + Decode(EncodeChars(text[1..]));
    }
  }

  // ---- the keyword facts the tokenizer's behaviour turns on ----

  /** LLIST is the only keyword with a doubled initial; what can follow "LI", "T", "ST", "IS" is short or absent. */
  predicate KeywordFacts(w: string)
  {
    && |w| >= 1
    && (|w| >= 2 && w[0] == w[1] ==> w == "LLIST")
    && (w[0] == 'T' ==> |w| <= 5)
    && (|w| >= 2 && w[0] == 'L' && w[1] == 'I' ==> |w| <= 4)
    && (|w| >= 2 && w[0] == 'S' && w[1] == 'T' ==> |w| <= 5)
    && (|w| >= 2 && w[0] == 'I' ==> w[1] != 'S')
    && w[0] != '"'
  }

  lemma FactsOf(k: nat)
    requires k < KEYWORDS
    ensures KeywordFacts(Keyword(k))
  {
    if k < 34 {
      FactsLow(k);
    } else if k < 68 {
      FactsMiddle(k);
    } else if k < 85 {
      FactsUpper(k);
    } else {
      FactsHigh(k);
    }
  }

  lemma FactsLow(k: nat)
    requires k < 34
    ensures KeywordFacts(Keyword(k))
  {
  }

  lemma FactsMiddle(k: nat)
    requires 34 <= k < 68
    ensures KeywordFacts(Keyword(k))
  {
  }

  lemma FactsUpper(k: nat)
    requires 68 <= k < 85
    ensures KeywordFacts(Keyword(k))
  {
  }

  lemma FactsHigh(k: nat)
    requires 85 <= k < KEYWORDS
    ensures KeywordFacts(Keyword(k))
  {
  }

  lemma KeywordsOk(w: string)
    requires IsKeyword(w)
    ensures KeywordFacts(w)
  {
    hide Keyword, KeywordFacts;
    var k: nat :| k < KEYWORDS && Keyword(k) == w;
    FactsOf(k);
  }

  /** 24 = LIST, 91 = LLIST, 30 = TO. */
  lemma NamedKeywords()
    ensures Keyword(24) == "LIST" && Keyword(91) == "LLIST" && Keyword(30) == "TO"
    ensures IsKeyword("LIST") && IsKeyword("LLIST") && IsKeyword("TO")
  {
  }

  lemma OnlyLlist(k: nat)
    requires k < KEYWORDS
    ensures Keyword(k) == "LLIST" <==> k == 91
  {
    if k < 34 {
      NotLlistLow(k);
    } else if k < 68 {
      NotLlistMiddle(k);
    } else {
      NotLlistHigh(k);
    }
  }

  lemma NotLlistLow(k: nat)
    requires k < 34
    ensures Keyword(k) != "LLIST"
  {
    assert |Keyword(k)| == 5 ==> Keyword(k)[0] != 'L' || Keyword(k)[1] != 'L';
  }

  lemma NotLlistMiddle(k: nat)
    requires 34 <= k < 68
    ensures Keyword(k) != "LLIST"
  {
    assert |Keyword(k)| == 5 ==> Keyword(k)[0] != 'L' || Keyword(k)[1] != 'L';
  }

  lemma NotLlistHigh(k: nat)
    requires 68 <= k < KEYWORDS
    ensures Keyword(k) == "LLIST" <==> k == 91
  {
    assert k != 91 && |Keyword(k)| == 5 ==> Keyword(k)[0] != 'L' || Keyword(k)[1] != 'L';
  }

  /** Words.index. */
  method KeywordIndex(w: string) returns (k: nat)
    requires IsKeyword(w)
    ensures k < KEYWORDS && Keyword(k) == w && forall j | 0 <= j < k :: Keyword(j) != w
  {
    hide Keyword;
    k := 0;
    while Keyword(k) != w
      invariant k < KEYWORDS && forall j | 0 <= j < k :: Keyword(j) != w
      decreases KEYWORDS - k
    {
      ghost var g: nat :| g < KEYWORDS && Keyword(g) == w;
      k := k + 1;
    }
  }
}
