/** Envelope and noise generators of the AY sound chip (src/ay.h). */
module Ay {
  import opened Words
  import opened Numbers

  // ---- envelope ----

  /** Position in the ramp and the shape register as the chip rewrites it. */
  datatype Envelope = Envelope(x: nat, shape: Byte)

  predicate Hold(shape: Byte) { shape % 2 == 1 }
  predicate Alt(shape: Byte) { shape / 2 % 2 == 1 }
  predicate Att(shape: Byte) { shape / 4 % 2 == 1 }
  predicate Cont(shape: Byte) { shape / 8 % 2 == 1 }

  /** Writing register 13: shapes without CONT are rewritten to 1001 and 1111. */
  function Written(val: Byte): Envelope
  {
    Envelope(0, if Cont(val) then val else if Att(val) then 15 else 9)
  }

  /** shape ^= (shape << 1) & 4. */
  function Alternated(shape: Byte): Byte
  {
    if !Alt(shape) then shape else if Att(shape) then shape - 4 else shape + 4
  }

  function Ramp(e: Envelope): (Envelope, int)
  {
    (e.(x := e.x + 1), if Att(e.shape) then e.x else 15 - e.x)
  }

  /** estep: the next envelope value. */
  function EStepOf(e: Envelope): (Envelope, int)
  {
    if e.x < 16 then Ramp(e)
    else if Hold(e.shape) then (e, if Att(e.shape) != Alt(e.shape) then 15 else 0)
    else Ramp(Envelope(0, Alternated(e.shape)))
  }

  function After(e: Envelope, k: nat): Envelope { if k == 0 then e else EStepOf(After(e, k - 1)).0 }

  /** The k-th envelope value after register 13 was written. */
  function Value(val: Byte, k: nat): int { EStepOf(After(Written(val), k)).1 }

  /** The shapes of the data sheet: one ramp, then silence, a held level, or more ramps. */
  function Shape(val: Byte, k: nat): int
  {
    if k < 16 then (if Att(val) then k else 15 - k)
    else if !Cont(val) then 0
    else if Hold(val) then (if Att(val) != Alt(val) then 15 else 0)
    else if Att(val) != (Alt(val) && k / 16 % 2 == 1) then k % 16
    else 15 - k % 16
  }

  lemma Bits3(shape: Byte)
    ensures var s := Alternated(shape);
            Hold(s) == Hold(shape) && Alt(s) == Alt(shape) && Cont(s) == Cont(shape)
            && (Att(s) <==> Att(shape) != Alt(shape))
  {
    if Alt(shape) {
      if Att(shape) {
        assert shape >= 4 && shape / 4 == (shape - 4) / 4 + 1;
        FourLess(shape - 4);
      } else {
        assert shape / 4 % 2 == 0;
        NoCarry(shape);
        FourLess(shape);
      }
    }
  }

  lemma NoCarry(shape: Byte)
    requires shape / 4 % 2 == 0
    ensures shape < 252
  {
  }

  lemma FourLess(s: nat)
    requires s / 4 % 2 == 0
    ensures (s + 4) % 2 == s % 2 && (s + 4) / 2 % 2 == s / 2 % 2 && (s + 4) / 8 == s / 8 && (s + 4) / 4 % 2 == 1
  {
    var a, r := s / 4 / 2, s % 4;
    DivUnique(s, 8, a, r);
    DivUnique(s + 4, 8, a, r + 4);
    DivUnique(s + 4, 4, 2 * a + 1, r);
    DivUnique(s + 4, 2, s / 2 + 2, s % 2);
    DivUnique(s / 2 + 2, 2, s / 2 / 2 + 1, s / 2 % 2);
  }

  /** The envelope after k steps, k > 0. */
  ghost predicate Follows(e: Envelope, val: Byte, k: nat)
  {
    && Hold(e.shape) == Hold(Written(val).shape) && Alt(e.shape) == Alt(Written(val).shape)
    && (if Hold(e.shape) && k >= 16 then e.x == 16 && Att(e.shape) == Att(Written(val).shape)
        else e.x == (k - 1) % 16 + 1
             && (Att(e.shape) <==> (Att(Written(val).shape) != (Alt(e.shape) && (k - 1) / 16 % 2 == 1))))
  }

  lemma Divide16(k: nat)
    requires k > 0
    ensures if k % 16 == 0 then (k - 1) % 16 == 15 && (k - 1) / 16 == k / 16 - 1
            else (k - 1) % 16 == k % 16 - 1 && (k - 1) / 16 == k / 16
  {
  }

  lemma Alternates(q: nat)
    requires q > 0
    ensures q % 2 == 1 <==> (q - 1) % 2 == 0
  {
  }

  lemma FollowsStep(e: Envelope, val: Byte, k: nat)
    requires k > 0 && Follows(e, val, k)
    ensures Follows(EStepOf(e).0, val, k + 1)
  {
    hide Hold, Alt, Att, Cont, Written, Alternated;
    Divide16(k);
    Bits3(e.shape);
    if k % 16 == 0 {
      Alternates(k / 16);
    }
  }

  lemma {:induction false} AfterFollows(val: Byte, k: nat)
    requires k > 0
    ensures Follows(After(Written(val), k), val, k)
  {
    hide Written, EStepOf, Follows;
    if k == 1 {
      assert After(Written(val), 0) == Written(val);
      FirstFollows(val);
    } else {
      AfterFollows(val, k - 1);
      FollowsStep(After(Written(val), k - 1), val, k - 1);
    }
  }

  lemma FirstFollows(val: Byte)
    ensures Follows(EStepOf(Written(val)).0, val, 1)
  {
    hide Hold, Alt, Att, Cont;
  }

  lemma WrittenBits(val: Byte)
    ensures var s := Written(val).shape;
            && Att(s) == Att(val) && (Cont(val) ==> s == val)
            && (!Cont(val) ==> Hold(s) && Att(s) == Alt(s))
  {
  }

  /** Every envelope is the data sheet's, at every step, and stays within 0..15. */
  lemma EnvelopeShape(val: Byte, k: nat)
    ensures Value(val, k) == Shape(val, k) && 0 <= Value(val, k) <= 15
  {
    hide Hold, Alt, Att, Cont, Written, Alternated, After;
    WrittenBits(val);
    if k == 0 {
      assert After(Written(val), 0) == Written(val) && Written(val).x == 0 by { AtStart(val); }
    } else {
      var e := After(Written(val), k);
      AfterFollows(val, k);
      Divide16(k);
      Bits3(e.shape);
      if k % 16 == 0 {
        Alternates(k / 16);
      }
    }
  }

  lemma AtStart(val: Byte)
    ensures After(Written(val), 0) == Written(val) && Written(val).x == 0
  {
  }

  // ---- noise ----

  const NOISE := 131072   // two to the seventeenth

  /** (noir ^ noiv * 0x24000) >> 1 on a 17-bit register: bits 17 and 14 are flipped when bit 0 is set. */
  function NoiseStep(r: nat): nat
    requires r < NOISE
  {
    if r % 2 == 0 then r / 2
    else if r / 16384 % 2 == 0 then (r + NOISE + 16384) / 2
    else (r + NOISE - 16384) / 2
  }

  /** The register before. */
  function NoiseBack(r: nat): nat
    requires r < NOISE
  {
    if r < 65536 then 2 * r
    else if r / 8192 % 2 == 1 then 2 * r + 1 - NOISE - 16384
    else 2 * r + 1 - NOISE + 16384
  }

  lemma NoiseForward(r: nat)
    requires 0 < r < NOISE
    ensures 0 < NoiseStep(r) < NOISE && NoiseBack(NoiseStep(r)) == r && NoiseStep(r) != r
  {
    var h, l := r / 16384, r % 16384;
    if r % 2 == 1 {
      var up := if h % 2 == 0 then 9 else 7;
      var n := r / 2 + 8192 * up;
      DivUnique(r + 16384 * up, 2, n, 1);
      Halved(h, l);
      DivUnique(n, 8192, h + up, l / 2);
    }
  }

  /** Half of an odd number, by its part above 16384. */
  lemma Halved(h: nat, l: nat)
    requires l < 16384 && (16384 * h + l) % 2 == 1
    ensures (16384 * h + l) / 2 == 8192 * h + l / 2 && 2 * (l / 2) + 1 == l
  {
    DivUnique(16384 * h + l, 2, 8192 * h + l / 2, l % 2);
  }

  lemma NoiseBackward(r: nat)
    requires 0 < r < NOISE
    ensures 0 < NoiseBack(r) < NOISE && NoiseStep(NoiseBack(r)) == r
  {
    var h := r / 8192;
    assert r == 8192 * h + r % 8192;
    if r >= 65536 && h % 2 == 1 {
      var n := 2 * r + 1 - NOISE - 16384;
      assert h >= 9;
      assert n == 16384 * (h - 9) + (2 * (r % 8192) + 1);
      assert n / 16384 == h - 9;
    } else if r >= 65536 {
      var n := 2 * r + 1 - NOISE + 16384;
      assert n == 16384 * (h - 7) + (2 * (r % 8192) + 1);
      assert n / 16384 == h - 7;
    }
  }

  function NoiseAfter(r: nat, k: nat): (n: nat)
    requires 0 < r < NOISE
    ensures 0 < n < NOISE
  {
    if k == 0 then r else
      NoiseForward(NoiseAfter(r, k - 1));
      NoiseStep(NoiseAfter(r, k - 1))
  }

  /** Equal registers were equal all along. */
  lemma {:induction false} NoiseMeets(r: nat, i: nat, j: nat)
    requires 0 < r < NOISE && NoiseAfter(r, i) == NoiseAfter(r, i + j)
    ensures NoiseAfter(r, j) == r
  {
    hide NoiseStep, NoiseBack;
    if i > 0 {
      NoiseForward(NoiseAfter(r, i - 1));
      NoiseForward(NoiseAfter(r, i + j - 1));
      NoiseMeets(r, i - 1, j);
    }
  }

  ghost function Seen(r: nat, k: nat): set<int>
    requires 0 < r < NOISE
  {
    set i: nat | i < k :: NoiseAfter(r, i)
  }

  lemma SeenStep(r: nat, k: nat)
    requires 0 < r < NOISE && k > 0
    ensures Seen(r, k) == Seen(r, k - 1) + {NoiseAfter(r, k - 1)}
    ensures (forall i: nat | i < k - 1 :: NoiseAfter(r, i) != NoiseAfter(r, k - 1)) ==>
            NoiseAfter(r, k - 1) !in Seen(r, k - 1)
  {
    hide NoiseAfter;
  }

  /** As long as nothing repeats, one more value is seen with every step. */
  lemma {:induction false} SeenGrows(r: nat, k: nat)
    requires 0 < r < NOISE && forall i, j | 0 <= i < j < k :: NoiseAfter(r, i) != NoiseAfter(r, j)
    ensures |Seen(r, k)| == k
  {
    hide NoiseAfter, Seen;
    if k == 0 {
      assert Seen(r, 0) == {} by { NoneSeen(r); }
    } else {
      SeenGrows(r, k - 1);
      SeenStep(r, k);
    }
  }

  lemma NoneSeen(r: nat)
    requires 0 < r < NOISE
    ensures Seen(r, 0) == {}
  {
  }

  /** The noise register comes back to where it started, so noise never dies out. */
  lemma NoiseReturns(r: nat) returns (p: nat)
    requires 0 < r < NOISE
    ensures 0 < p <= NOISE && NoiseAfter(r, p) == r
  {
    hide NoiseAfter;
    if forall i, j | 0 <= i < j < NOISE + 1 :: NoiseAfter(r, i) != NoiseAfter(r, j) {
      SeenGrows(r, NOISE + 1);
      BoundedSetSize(Seen(r, NOISE + 1), NOISE);
      assert false;
    }
    var i, j :| 0 <= i < j < NOISE + 1 && NoiseAfter(r, i) == NoiseAfter(r, j);
    p := j - i;
    assert i + p == j;
    NoiseMeets(r, i, p);
  }

  // ---- clock dividers ----

  /** `++counter >= period`, then start over. */
  function Divide(c: nat, period: nat): (nat, bool) { if c + 1 >= period then (0, true) else (c + 1, false) }

  function Fires(c: nat, period: nat, n: nat): nat
  {
    if n == 0 then 0 else Fires(c, period, n - 1) + if Divide(CounterAfter(c, period, n - 1), period).1 then 1 else 0
  }

  function CounterAfter(c: nat, period: nat, n: nat): nat
  {
    if n == 0 then c else Divide(CounterAfter(c, period, n - 1), period).0
  }

  function Max1(p: nat): nat { if p == 0 then 1 else p }

  lemma NextQuotient(a: nat, p: nat)
    requires p > 0
    ensures if a % p == p - 1 then (a + 1) % p == 0 && (a + 1) / p == a / p + 1
            else (a + 1) % p == a % p + 1 && (a + 1) / p == a / p
  {
    var q, r := a / p, a % p;
    assert a == p * q + r;
    if r == p - 1 {
      assert a + 1 == p * (q + 1) + 0;
      DivUnique(a + 1, p, q + 1, 0);
    } else {
      DivUnique(a + 1, p, q, r + 1);
    }
  }

  /** A counter at or past the end of a period, which a register write may have shortened, fires next. */
  function Ready(c: nat, period: nat): nat { if c < Max1(period) then c else Max1(period) - 1 }

  /** n clocks make (c + n) / period steps, wherever the counter stood. */
  lemma {:induction false} DividerRate(c: nat, period: nat, n: nat)
    ensures Fires(c, period, n) == (Ready(c, period) + n) / Max1(period)
    ensures CounterAfter(c, period, n) == if n == 0 then c else (Ready(c, period) + n) % Max1(period)
  {
    if c < Max1(period) {
      DividerFromBelow(c, period, n);
      if n == 0 {
        DivUnique(c, Max1(period), 0, c);
      }
    } else {
      DividerFromBelow(Max1(period) - 1, period, n);
      if n == 0 {
        DivUnique(Max1(period) - 1, Max1(period), 0, Max1(period) - 1);
      } else {
        SameOnceFired(c, period, n);
      }
    }
  }

  lemma {:induction false} SameOnceFired(c: nat, period: nat, n: nat)
    requires c >= Max1(period) && n > 0
    ensures Fires(c, period, n) == Fires(Max1(period) - 1, period, n)
    ensures CounterAfter(c, period, n) == CounterAfter(Max1(period) - 1, period, n)
  {
    var b := Max1(period) - 1;
    if n == 1 {
      assert CounterAfter(c, period, 0) == c && CounterAfter(b, period, 0) == b;
      assert Fires(c, period, 0) == 0 && Fires(b, period, 0) == 0;
    } else {
      SameOnceFired(c, period, n - 1);
    }
  }

  lemma {:induction false} DividerFromBelow(c: nat, period: nat, n: nat)
    requires c < Max1(period)
    ensures Fires(c, period, n) == (c + n) / Max1(period) && CounterAfter(c, period, n) == (c + n) % Max1(period)
  {
    var p := Max1(period);
    if n == 0 {
      DivUnique(c, p, 0, c);
    } else {
      DividerFromBelow(c, period, n - 1);
      NextQuotient(c + n - 1, p);
    }
  }

  // ---- the object ----

  class AY {
    var regs: seq<Byte>
    var reg: nat
    var envc: nat
    var envv: int
    var env: Envelope
    var noic: nat
    var noiv: int
    var noir: nat

    ghost predicate Valid()
      reads this
    {
      |regs| == 16 && reg < 16 && 0 <= envv <= 15 && 0 < noir < NOISE && env.x <= 16
    }

    constructor ()
      ensures Valid() && regs == seq(16, _ => 0) && noir == 1 && env == Envelope(0, 0) && envc == noic == 0
    {
      regs, reg, envc, envv, env := seq(16, _ => 0), 0, 0, 0, Envelope(0, 0);
      noic, noiv, noir := 0, 0, 1;
    }

    function EnvPeriod(): nat
      reads this
      requires |regs| == 16
    {
      var lo: nat, hi: nat := regs[11], regs[12];
      2 * lo + 512 * hi
    }

    function NoisePeriod(): nat
      reads this
      requires |regs| == 16
    {
      var r: nat := regs[6];
      2 * r
    }

    method EStep() returns (v: int)
      requires Valid()
      modifies this`env
      ensures Valid() && env == EStepOf(old(env)).0 && v == EStepOf(old(env)).1 && 0 <= v <= 15
    {
      if env.x / 16 != 0 {
        if env.shape % 2 == 1 {
          return if Att(env.shape) != Alt(env.shape) then 15 else 0;
        }
        env := Envelope(0, Alternated(env.shape));
      }
      v := if Att(env.shape) then env.x else 15 - env.x;
      env := env.(x := env.x + 1);
    }

    /** step, without the mixing of the three channels. */
    method Step()
      requires Valid()
      modifies this`envc, this`envv, this`env, this`noic, this`noiv, this`noir
      ensures Valid()
      ensures envc == Divide(old(envc), EnvPeriod()).0 && noic == Divide(old(noic), NoisePeriod()).0
      ensures if Divide(old(envc), EnvPeriod()).1 then env == EStepOf(old(env)).0 && envv == EStepOf(old(env)).1
              else env == old(env) && envv == old(envv)
      ensures if Divide(old(noic), NoisePeriod()).1 then noir == NoiseStep(old(noir)) && noiv == old(noir) % 2
              else noir == old(noir) && noiv == old(noiv)
    {
      hide NoiseStep, EStepOf;
      envc := envc + 1;
      if envc >= EnvPeriod() {
        envc := 0;
        envv := EStep();
      }
      noic := noic + 1;
      if noic >= NoisePeriod() {
        noic := 0;
        noiv := noir % 2;
        NoiseForward(noir);
        noir := NoiseStep(noir);
      }
    }

    /** Port 1 selects a register, port 0 writes it; writing register 13 restarts the envelope. */
    method Write(addr: int, val: Byte)
      requires Valid()
      modifies this`regs, this`reg, this`env
      ensures Valid() && reg == (if addr == 1 then val % 16 else old(reg))
      ensures regs == if addr == 1 then old(regs) else old(regs)[reg := val % (Mask(reg) + 1)]
      ensures env == if addr != 1 && reg == 13 then Written(val) else old(env)
    {
      if addr == 1 {
        reg := val % 16;
      } else {
        regs := regs[reg := val % (Mask(reg) + 1)];
        if reg == 13 {
          env := Written(val);
        }
      }
    }
  }

  /** Register widths: all masks are one less than a power of two. */
  function Mask(reg: nat): nat
  {
    if reg == 1 || reg == 3 || reg == 5 || reg == 13 then 0x0f
    else if reg == 6 || 8 <= reg <= 10 then 0x1f
    else 0xff
  }
}
