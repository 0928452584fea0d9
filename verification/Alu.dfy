/** The arithmetic macros of the 8080 core (src/i8080.cpp) with their
    table-driven flags, and what chains of them compute. */
module Alu {
  import opened Words
  import opened Numbers

  datatype Flags = Flags(cy: Bit, pa: Bit, hc: Bit, ze: Bit, sg: Bit)
  datatype Out = Out(a: Byte, f: Flags)

  const HALF_CARRY: seq<Bit> := [0, 0, 1, 0, 1, 0, 1, 1]
  const SUB_HALF_CARRY: seq<Bit> := [0, 1, 1, 1, 0, 0, 0, 1]

  function Ones(x: nat): nat { if x == 0 then 0 else x % 2 + Ones(x / 2) }

  /** Even parity, the value parity_table holds. */
  function Parity(x: Byte): Bit { 1 - Ones(x) % 2 }

  /** The three bits `index & 7` keeps: bit 3 of both operands and of the result. */
  function TableIndex(a: Byte, v: Byte, work: Word): (i: int)
    ensures 0 <= i < 8
  {
    4 * Bit3(a) + 2 * Bit3(v) + Bit3(work)
  }

  function Result(work: Word, hc: Bit): Out
  {
    var r := work % 256;
    Out(r, Flags(work / 256 % 2, Parity(r), hc, Flag(r == 0), Flag(r >= 128)))
  }

  /** ADD (c == 0) and ADC. */
  function Add(a: Byte, v: Byte, c: Bit): Out
  {
    var work := a + v + c;
    Result(work, HALF_CARRY[TableIndex(a, v, work)])
  }

  /** SUB, CMP (c == 0) and SBB. */
  function Sub(a: Byte, v: Byte, c: Bit): Out
  {
    var work := ToWord(a - v - c);
    Result(work, 1 - SUB_HALF_CARRY[TableIndex(a, v, work)])
  }

  function Logic(r: Byte, hc: Bit): Out { Result(r, hc) }

  /** Bitwise and, or and exclusive or, bit by bit from the low end. */
  function BitAnd(a: nat, v: nat): (r: nat)
    ensures r <= a && r <= v
  {
    if a == 0 || v == 0 then 0 else (if a % 2 == 1 && v % 2 == 1 then 1 else 0) + 2 * BitAnd(a / 2, v / 2)
  }

  function BitOr(a: nat, v: nat): (r: nat)
    decreases a + v
  {
    if a == 0 then v else if v == 0 then a
    else (if a % 2 == 1 || v % 2 == 1 then 1 else 0) + 2 * BitOr(a / 2, v / 2)
  }

  function BitXor(a: nat, v: nat): (r: nat)
    decreases a + v
  {
    if a == 0 then v else if v == 0 then a
    else (if a % 2 != v % 2 then 1 else 0) + 2 * BitXor(a / 2, v / 2)
  }

  /** ANA, XRA, ORA. */
  function And(a: Byte, v: Byte): Out
  {
    Logic(BitAnd(a, v), Flag(Bit3(a) == 1 || Bit3(v) == 1))
  }

  function Xor(a: Byte, v: Byte): Out { Logic(ToByte(BitXor(a, v)), 0) }

  function Or(a: Byte, v: Byte): Out { Logic(ToByte(BitOr(a, v)), 0) }

  function DaaCorrection(a: Byte, f: Flags): (r: (Byte, Bit))
  {
    var low := if f.hc == 1 || a % 16 > 9 then 6 else 0;
    if f.cy == 1 || a / 16 > 9 || (a / 16 >= 9 && a % 16 > 9) then (low + 0x60, 1) else (low, 0)
  }

  function Daa(a: Byte, f: Flags): Out
  {
    var (add, carry) := DaaCorrection(a, f);
    var r := Add(a, add, 0);
    r.(f := r.f.(cy := carry))
  }

  // ---- logic ----

  /** Or and exclusive or stay below any power of two that bounds the operands. */
  lemma {:induction false} BitsBounded(a: nat, v: nat, n: nat)
    requires a < Pow(2, n) && v < Pow(2, n)
    ensures BitOr(a, v) < Pow(2, n) && BitXor(a, v) < Pow(2, n)
    decreases n
  {
    if a != 0 && v != 0 {
      BitsBounded(a / 2, v / 2, n - 1);
    }
  }

  /** The three operations determine each other: and plus or is the sum, exclusive or is their difference. */
  lemma {:induction false} BitSums(a: nat, v: nat)
    ensures BitAnd(a, v) + BitOr(a, v) == a + v && BitXor(a, v) == BitOr(a, v) - BitAnd(a, v)
    decreases a + v
  {
    if a != 0 && v != 0 {
      BitSums(a / 2, v / 2);
    }
  }

  lemma {:induction false} XorParity(a: nat, v: nat)
    ensures (Ones(BitXor(a, v)) + Ones(a) + Ones(v)) % 2 == 0
    decreases a + v
  {
    hide Ones, BitXor;
    if a == 0 || v == 0 {
      XorNothing(a, v);
    } else {
      XorParity(a / 2, v / 2);
      var b := if a % 2 != v % 2 then 1 else 0;
      var x := BitXor(a / 2, v / 2);
      OnesOf(b, x);
      XorStep(a, v);
      OnesStep(a);
      OnesStep(v);
      EvenSum(Ones(x) + Ones(a / 2) + Ones(v / 2), b + a % 2 + v % 2);
    }
  }

  lemma OnesStep(n: nat)
    ensures Ones(n) == n % 2 + Ones(n / 2)
  {
  }

  lemma XorStep(a: nat, v: nat)
    requires a != 0 && v != 0
    ensures BitXor(a, v) == (if a % 2 != v % 2 then 1 else 0) + 2 * BitXor(a / 2, v / 2)
  {
  }

  lemma EvenSum(s: nat, t: nat)
    requires s % 2 == 0 && t % 2 == 0
    ensures (s + t) % 2 == 0
  {
  }

  lemma XorNothing(a: nat, v: nat)
    requires a == 0 || v == 0
    ensures (Ones(BitXor(a, v)) + Ones(a) + Ones(v)) % 2 == 0
  {
  }

  lemma OnesOf(b: Bit, r: nat)
    ensures Ones(b + 2 * r) == b + Ones(r)
  {
    assert (b + 2 * r) % 2 == b && (b + 2 * r) / 2 == r;
    assert b + 2 * r == 0 ==> r == 0;
  }

  lemma LogicBytes(a: Byte, v: Byte)
    ensures And(a, v).a == BitAnd(a, v) && Or(a, v).a == BitOr(a, v) && Xor(a, v).a == BitXor(a, v)
    ensures And(a, v).f.cy == Or(a, v).f.cy == Xor(a, v).f.cy == 0
    ensures Xor(a, v).f == Flags(0, Parity(Xor(a, v).a), 0, Flag(Xor(a, v).a == 0), Flag(Xor(a, v).a >= 128))
  {
    hide BitAnd, BitOr, BitXor, ToByte, Bit3, Parity;
    assert Pow(2, 8) == 256 by { assert Pow(2, 4) == 16; }
    BitsBounded(a, v, 8);
    SmallByte(BitOr(a, v));
    SmallByte(BitXor(a, v));
  }

  /** ANA, XRA and ORA: results tied to each other and to the sum, carry cleared, and parity of
      an exclusive or is the combined parity of its operands. */
  lemma LogicMeaning(a: Byte, v: Byte)
    ensures And(a, v).a + Or(a, v).a == a + v && Xor(a, v).a == Or(a, v).a - And(a, v).a
    ensures And(a, v).f.cy == Or(a, v).f.cy == Xor(a, v).f.cy == 0
    ensures Xor(a, v).f.pa == (if Parity(a) == Parity(v) then 1 else 0)
    ensures Xor(a, a) == Out(0, Flags(0, 1, 0, 1, 0))
  {
    hide And, Or, Xor, BitAnd, BitOr, BitXor, Ones;
    LogicBytes(a, v);
    LogicBytes(a, a);
    BitSums(a, v);
    XorParity(a, v);
    SelfXor(a);
    ParityCases(Ones(BitXor(a, v)), Ones(a), Ones(v));
    assert Ones(0) == 0 by { NoOnes(); }
  }

  lemma NoOnes()
    ensures Ones(0) == 0
  {
  }

  lemma ParityCases(x: nat, y: nat, z: nat)
    requires (x + y + z) % 2 == 0
    ensures 1 - x % 2 == if 1 - y % 2 == 1 - z % 2 then 1 else 0
  {
  }

  lemma SmallByte(x: nat)
    requires x < 256
    ensures ToByte(x) == x && x / 256 == 0
  {
  }

  lemma {:induction false} SelfXor(a: nat)
    ensures BitXor(a, a) == 0
  {
    if a != 0 {
      SelfXor(a / 2);
    }
  }

  // ---- the tables hold the true nibble carry and borrow ----

  /** Adding multiples of 16 leaves bit 3 alone. */
  lemma Bit3Low(k: int, s: nat)
    requires 16 * k + s >= 0
    ensures Bit3(16 * k + s) == s / 8 % 2
  {
    assert (16 * k + s) / 8 == 2 * k + s / 8;
  }

  lemma NibbleSplit(x: Byte)
    ensures x == 16 * (x / 16) + x % 16 && Bit3(x) == x % 16 / 8 && 0 <= x / 16 < 16
  {
    Bit3Low(x / 16, x % 16);
  }

  lemma HalfCarry(a: Byte, v: Byte, c: Bit)
    ensures HALF_CARRY[TableIndex(a, v, a + v + c)] == Flag(a % 16 + v % 16 + c >= 16)
  {
    NibbleSplit(a);
    NibbleSplit(v);
    var s := a % 16 + v % 16 + c;
    assert a + v + c == 16 * (a / 16 + v / 16) + s;
    Bit3Low(a / 16 + v / 16, s);
    hide Bit3;
    NibbleCarry(a % 16, v % 16, c);
  }

  /** The carry table, by the top bits of two nibbles and of their sum. */
  lemma NibbleCarry(x: nat, y: nat, c: Bit)
    requires x < 16 && y < 16
    ensures HALF_CARRY[4 * (x / 8) + 2 * (y / 8) + (x + y + c) / 8 % 2] == Flag(x + y + c >= 16)
  {
    TopCarry(x / 8, y / 8, (x + y + c) / 8);
  }

  /** Two top bits and a carry from below or none. */
  lemma TopCarry(p: Bit, q: Bit, s: nat)
    requires p + q <= s <= p + q + 1
    ensures HALF_CARRY[4 * p + 2 * q + s % 2] == Flag(s >= 2)
  {
  }

  lemma HalfBorrow(a: Byte, v: Byte, c: Bit)
    ensures 1 - SUB_HALF_CARRY[TableIndex(a, v, ToWord(a - v - c))] == Flag(a % 16 >= v % 16 + c)
  {
    NibbleSplit(a);
    NibbleSplit(v);
    BorrowBit3(a, v, c);
    hide Bit3, ToWord;
    NibbleBorrow(a % 16, v % 16, c);
  }

  lemma BorrowBit3(a: Byte, v: Byte, c: Bit)
    ensures Bit3(ToWord(a - v - c)) == (a % 16 - v % 16 - c + 16) / 8 % 2
  {
    NibbleSplit(a);
    NibbleSplit(v);
    var s := a % 16 - v % 16 - c + 16;
    var d := a - v - c;
    var k := if d >= 0 then 0 else 4096;
    assert ToWord(d) == d + 16 * k;
    assert d + 16 * k == 16 * (a / 16 - v / 16 - 1 + k) + s;
    hide Bit3, ToWord;
    Bit3Low(a / 16 - v / 16 - 1 + k, s);
  }

  /** The borrow table, by the top bits of two nibbles and of their difference. */
  lemma NibbleBorrow(x: nat, y: nat, c: Bit)
    requires x < 16 && y < 16
    ensures 1 - SUB_HALF_CARRY[4 * (x / 8) + 2 * (y / 8) + (x - y - c + 16) / 8 % 2] == Flag(x >= y + c)
  {
    TopBorrow(x / 8, y / 8, (x - y - c + 16) / 8);
  }

  lemma TopBorrow(p: Bit, q: Bit, s: nat)
    requires p - q + 1 <= s <= p - q + 2
    ensures 1 - SUB_HALF_CARRY[4 * p + 2 * q + s % 2] == Flag(s >= 2)
  {
  }

  lemma AddMeaning(a: Byte, v: Byte, c: Bit)
    ensures var r := Add(a, v, c);
            && r.a + 256 * r.f.cy == a + v + c
            && r.f.hc == Flag(a % 16 + v % 16 + c >= 16)
  {
    hide TableIndex, Parity;
    HalfCarry(a, v, c);
    DivUnique(a + v + c, 256, (a + v + c) / 256, (a + v + c) % 256);
  }

  lemma SubMeaning(a: Byte, v: Byte, c: Bit)
    ensures var r := Sub(a, v, c);
            && r.a - 256 * r.f.cy == a - v - c
            && r.f.hc == Flag(a % 16 >= v % 16 + c)
  {
    hide TableIndex, Parity, ToWord;
    HalfBorrow(a, v, c);
    Borrowed(a - v - c);
  }

  lemma Borrowed(d: int)
    requires -256 <= d < 256
    ensures var w := ToWord(d); w % 256 == (if d < 0 then d + 256 else d) && w / 256 % 2 == if d < 0 then 1 else 0
  {
    DivUnique(d, 65536, if d < 0 then -1 else 0, if d < 0 then d + 65536 else d);
    DivUnique(ToWord(d), 256, if d < 0 then 255 else 0, if d < 0 then d + 256 else d);
  }

  // ---- multi-byte arithmetic, least significant byte first ----

  function Pow(b: nat, n: nat): nat { if n == 0 then 1 else b * Pow(b, n - 1) }

  /** Value of a little-endian digit string in the given base. */
  function Value(x: seq<int>, base: nat): int
  {
    if x == [] then 0 else x[0] + base * Value(x[1..], base)
  }

  datatype Chain = Chain(bytes: seq<Byte>, carry: Bit)

  /** MOV A,x; ADC y (or SBB y); MOV x,A over n bytes, the carry flag running through. */
  function AddChain(x: seq<Byte>, y: seq<Byte>, c: Bit): (r: Chain)
    requires |x| == |y|
    ensures |r.bytes| == |x|
  {
    if x == [] then Chain([], c) else
    var o := Add(x[0], y[0], c);
    var rest := AddChain(x[1..], y[1..], o.f.cy);
    Chain([o.a] + rest.bytes, rest.carry)
  }

  function SubChain(x: seq<Byte>, y: seq<Byte>, c: Bit): (r: Chain)
    requires |x| == |y|
    ensures |r.bytes| == |x|
  {
    if x == [] then Chain([], c) else
    var o := Sub(x[0], y[0], c);
    var rest := SubChain(x[1..], y[1..], o.f.cy);
    Chain([o.a] + rest.bytes, rest.carry)
  }

  /** The same with DAA after every ADC. */
  function BcdChain(x: seq<Byte>, y: seq<Byte>, c: Bit): (r: Chain)
    requires |x| == |y|
    ensures |r.bytes| == |x|
  {
    if x == [] then Chain([], c) else
    var s := Add(x[0], y[0], c);
    var o := Daa(s.a, s.f);
    var rest := BcdChain(x[1..], y[1..], o.f.cy);
    Chain([o.a] + rest.bytes, rest.carry)
  }

  lemma {:induction false} AddChainIsAddition(x: seq<Byte>, y: seq<Byte>, c: Bit)
    requires |x| == |y|
    ensures var r := AddChain(x, y, c);
            Value(r.bytes, 256) + Pow(256, |x|) * r.carry == Value(x, 256) + Value(y, 256) + c
  {
    if x != [] {
      var o := Add(x[0], y[0], c);
      var rest := AddChain(x[1..], y[1..], o.f.cy);
      AddMeaning(x[0], y[0], c);
      AddChainIsAddition(x[1..], y[1..], o.f.cy);
      CarryOut(Pow(256, |x| - 1), rest.carry, 256);
      assert AddChain(x, y, c).bytes[1..] == rest.bytes;
    }
  }

  lemma {:induction false} SubChainIsSubtraction(x: seq<Byte>, y: seq<Byte>, c: Bit)
    requires |x| == |y|
    ensures var r := SubChain(x, y, c);
            Value(r.bytes, 256) - Pow(256, |x|) * r.carry == Value(x, 256) - Value(y, 256) - c
  {
    if x != [] {
      var o := Sub(x[0], y[0], c);
      var rest := SubChain(x[1..], y[1..], o.f.cy);
      SubMeaning(x[0], y[0], c);
      SubChainIsSubtraction(x[1..], y[1..], o.f.cy);
      CarryOut(Pow(256, |x| - 1), rest.carry, 256);
      assert SubChain(x, y, c).bytes[1..] == rest.bytes;
    }
  }

  lemma CarryOut(p: nat, c: Bit, b: nat)
    ensures b * (p * c) == (b * p) * c
  {
  }

  predicate PackedBcd(b: Byte) { b % 16 <= 9 && b / 16 <= 9 }

  /** The number 0..99 a packed-BCD byte stands for. */
  function Decimal(b: Byte): int { 10 * (b / 16) + b % 16 }

  function Decimals(x: seq<Byte>): (d: seq<int>)
    ensures |d| == |x|
  {
    seq(|x|, i requires 0 <= i < |x| => Decimal(x[i]))
  }

  /** ADC of two packed-BCD bytes: s.a is hi*16+lo mod 256, with lo and hi the digit sums. */
  lemma AdcDigits(a: Byte, v: Byte, c: Bit)
    requires PackedBcd(a) && PackedBcd(v)
    ensures var s := Add(a, v, c);
            var lo, hi := a % 16 + v % 16 + c, a / 16 + v / 16;
            && 0 <= lo <= 19 && 0 <= hi <= 18
            && s.a + 256 * s.f.cy == 16 * hi + lo
            && s.f.hc == Flag(lo >= 16)
  {
    AddMeaning(a, v, c);
    NibbleSplit(a);
    NibbleSplit(v);
  }

  /** What the correction adds, and the carry it reports, in terms of the digit sums. */
  lemma DaaAdds(s: Byte, f: Flags, lo: int, hi: int)
    requires 0 <= lo <= 19 && 0 <= hi <= 18
    requires s + 256 * f.cy == 16 * hi + lo && f.hc == Flag(lo >= 16)
    ensures var tens := hi + (if lo >= 10 then 1 else 0);
            DaaCorrection(s, f) == ((if lo >= 10 then 6 else 0) + (if tens >= 10 then 0x60 else 0), Flag(tens >= 10))
  {
    var (l, h) := if lo >= 16 then (lo - 16, hi + 1) else (lo, hi);
    assert s == 16 * (h - 16 * f.cy) + l;
    assert s / 16 == h - 16 * f.cy && s % 16 == l;
  }

  /** DAA on a binary sum of digit sums lo and hi carries the tens over. */
  lemma DaaDigits(s: Byte, f: Flags, lo: int, hi: int)
    requires 0 <= lo <= 19 && 0 <= hi <= 18
    requires s + 256 * f.cy == 16 * hi + lo && f.hc == Flag(lo >= 16)
    ensures var r := Daa(s, f);
            && PackedBcd(r.a)
            && Decimal(r.a) + 100 * r.f.cy == 10 * hi + lo
  {
    hide DaaCorrection, Add;
    DaaAdds(s, f, lo, hi);
    var (add, carry) := DaaCorrection(s, f);
    AddMeaning(s, add, 0);
    var units := if lo >= 10 then lo - 10 else lo;
    var tens := hi + (if lo >= 10 then 1 else 0) - 10 * carry;
    var r := Daa(s, f).a;
    var over := Add(s, add, 0).f.cy;
    assert r + 256 * over == 16 * tens + units + 256 * (carry - f.cy);
    DigitPair(r, over - carry + f.cy, tens, units);
  }

  /** Two digits in a byte, up to a multiple of 256. */
  lemma DigitPair(r: Byte, k: int, tens: int, units: int)
    requires 0 <= tens <= 9 && 0 <= units <= 9 && r + 256 * k == 16 * tens + units
    ensures PackedBcd(r) && Decimal(r) == 10 * tens + units
  {
    assert k == 0;
    assert r / 16 == tens && r % 16 == units;
  }

  /** ADC then DAA is addition of two decimal digit pairs with carry. */
  lemma AdcDaaMeaning(a: Byte, v: Byte, c: Bit)
    requires PackedBcd(a) && PackedBcd(v)
    ensures var s := Add(a, v, c);
            var r := Daa(s.a, s.f);
            && PackedBcd(r.a)
            && Decimal(r.a) + 100 * r.f.cy == Decimal(a) + Decimal(v) + c
  {
    AdcDigits(a, v, c);
    var s := Add(a, v, c);
    DaaDigits(s.a, s.f, a % 16 + v % 16 + c, a / 16 + v / 16);
  }

  lemma {:induction false} BcdChainIsDecimalAddition(x: seq<Byte>, y: seq<Byte>, c: Bit)
    requires |x| == |y|
    requires forall i | 0 <= i < |x| :: PackedBcd(x[i]) && PackedBcd(y[i])
    ensures var r := BcdChain(x, y, c);
            && (forall i | 0 <= i < |x| :: PackedBcd(r.bytes[i]))
            && Value(Decimals(r.bytes), 100) + Pow(100, |x|) * r.carry
               == Value(Decimals(x), 100) + Value(Decimals(y), 100) + c
  {
    if x != [] {
      var s := Add(x[0], y[0], c);
      var o := Daa(s.a, s.f);
      var rest := BcdChain(x[1..], y[1..], o.f.cy);
      var r := BcdChain(x, y, c);
      AdcDaaMeaning(x[0], y[0], c);
      BcdChainIsDecimalAddition(x[1..], y[1..], o.f.cy);
      CarryOut(Pow(100, |x| - 1), rest.carry, 100);
      assert r.bytes[1..] == rest.bytes;
      assert Decimals(r.bytes)[1..] == Decimals(rest.bytes);
      assert Decimals(x)[1..] == Decimals(x[1..]);
      assert Decimals(y)[1..] == Decimals(y[1..]);
    }
  }
}
