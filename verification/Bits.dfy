/** 32-bit registers as their bits, the lowest first, with the operations C++ writes on uint32_t. */
module Bits {
  import opened Words

  type Register = s: seq<bool> | |s| == 32 witness seq(32, _ => false)

  function Falses(n: nat): (s: seq<bool>)
    ensures |s| == n && forall i | 0 <= i < n :: !s[i]
  {
    seq(n, _ => false)
  }

  function Trues(): Register { seq(32, _ => true) }

  function Xor(x: Register, y: Register): Register { seq(32, i requires 0 <= i < 32 => x[i] != y[i]) }

  function And(x: Register, y: Register): Register { seq(32, i requires 0 <= i < 32 => x[i] && y[i]) }

  function Or(x: Register, y: Register): Register { seq(32, i requires 0 <= i < 32 => x[i] || y[i]) }

  /** c >> n. */
  function ShiftRight(c: Register, n: nat): Register
    requires n <= 32
  {
    c[n..] + Falses(n)
  }

  /** c << n. */
  function ShiftLeft(c: Register, n: nat): Register
    requires n <= 32
  {
    Falses(n) + c[..32 - n]
  }

  lemma LeftBits(c: Register, n: nat, i: nat)
    requires n <= 32 && i < 32
    ensures ShiftLeft(c, n)[i] == (i >= n && c[i - n])
  {
  }

  lemma RightBits(c: Register, n: nat, i: nat)
    requires n <= 32 && i < 32
    ensures ShiftRight(c, n)[i] == (i + n < 32 && c[i + n])
  {
  }

  lemma LeftOnce(c: Register, n: nat)
    requires n < 32
    ensures ShiftLeft(ShiftLeft(c, n), 1) == ShiftLeft(c, n + 1) && ShiftLeft(c, 0) == c
  {
    var l, r := ShiftLeft(ShiftLeft(c, n), 1), ShiftLeft(c, n + 1);
    forall i | 0 <= i < 32 ensures l[i] == r[i] {
    }
  }

  lemma RightOnce(c: Register, n: nat)
    requires n < 32
    ensures ShiftRight(ShiftRight(c, n), 1) == ShiftRight(c, n + 1) && ShiftRight(c, n)[0] == c[n]
            && ShiftRight(c, 0) == c
  {
    var l, r := ShiftRight(ShiftRight(c, n), 1), ShiftRight(c, n + 1);
    forall i | 0 <= i < 32 ensures l[i] == r[i] {
    }
  }

  // ---- numbers ----

  /** The n lowest bits of a number, and back. */
  function BitsOf(b: nat, n: nat): (s: seq<bool>)
    ensures |s| == n
  {
    if n == 0 then [] else [b % 2 == 1] + BitsOf(b / 2, n - 1)
  }

  function NumberOf(s: seq<bool>): (n: nat)
    ensures n < Power(|s|)
  {
    if s == [] then 0 else Flag(s[0]) + 2 * NumberOf(s[1..])
  }

  function Power(n: nat): nat { if n == 0 then 1 else 2 * Power(n - 1) }

  lemma EightBits()
    ensures Power(8) == 256
  {
    assert Power(4) == 16;
  }

  lemma {:induction false} NumberBack(b: nat, n: nat)
    requires b < Power(n)
    ensures NumberOf(BitsOf(b, n)) == b
  {
    if n > 0 {
      NumberBack(b / 2, n - 1);
      assert BitsOf(b, n)[1..] == BitsOf(b / 2, n - 1);
    }
  }

  lemma {:induction false} BitsBack(s: seq<bool>)
    ensures BitsOf(NumberOf(s), |s|) == s
  {
    if s != [] {
      BitsBack(s[1..]);
      HalfAndBit(s[0], NumberOf(s[1..]));
      assert s == [s[0]] + s[1..];
    }
  }

  lemma HalfAndBit(b: bool, m: nat)
    ensures (Flag(b) + 2 * m) % 2 == Flag(b) && (Flag(b) + 2 * m) / 2 == m
  {
  }
}
