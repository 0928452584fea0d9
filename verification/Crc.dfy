/** CRC-32 of debugger/agent/png_encoder.cpp: the table-driven loop against the bit-serial definition. */
module Crc {
  import opened Words
  import opened Bits

  // ---- register operations ----

  /** c & 0xFF. */
  function LowByte(c: Register): Register { c[..8] + Falses(24) }

  /** c & 0xFFFFFF00. */
  function Rest(c: Register): Register { Falses(8) + c[8..] }

  /** The byte in the low bits of a register. */
  function Spread(b: Byte): (r: Register)
    ensures Rest(r) == Falses(32)
  {
    BitsOf(b, 8) + Falses(24)
  }

  /** The reflected polynomial EDB88320. */
  function Polynomial(): Register
  {
    seq(32, i requires 0 <= i < 32 => i in {5, 8, 9, 15, 19, 20, 21, 23, 24, 26, 27, 29, 30, 31})
  }

  /** One bit through the shift register. */
  function Shift(c: Register): Register
  {
    if c[0] then Xor(Polynomial(), ShiftRight(c, 1)) else ShiftRight(c, 1)
  }

  function Shifts(c: Register, k: nat): Register { if k == 0 then c else Shift(Shifts(c, k - 1)) }

  /** The bit-serial register after all bytes, starting from c. */
  function Serial(c: Register, data: seq<Byte>): Register
  {
    if data == [] then c else Shifts(Xor(Serial(c, data[..|data| - 1]), Spread(data[|data| - 1])), 8)
  }

  function CrcOf(data: seq<Byte>): Register { Xor(Serial(Trues(), data), Trues()) }

  // ---- a byte at a time ----

  lemma RightXor(x: Register, y: Register)
    ensures ShiftRight(Xor(x, y), 1) == Xor(ShiftRight(x, 1), ShiftRight(y, 1))
  {
    var l, r := ShiftRight(Xor(x, y), 1), Xor(ShiftRight(x, 1), ShiftRight(y, 1));
    forall i | 0 <= i < 32 ensures l[i] == r[i] {
    }
  }

  lemma XorAssociates(p: Register, x: Register, y: Register)
    ensures Xor(Xor(p, x), y) == Xor(p, Xor(x, y))
    ensures Xor(x, Xor(p, y)) == Xor(p, Xor(x, y))
    ensures Xor(Xor(p, x), Xor(p, y)) == Xor(x, y)
  {
  }

  lemma ShiftLinear(x: Register, y: Register)
    ensures Shift(Xor(x, y)) == Xor(Shift(x), Shift(y))
  {
    RightXor(x, y);
    XorAssociates(Polynomial(), ShiftRight(x, 1), ShiftRight(y, 1));
    assert Xor(x, y)[0] == (x[0] != y[0]);
    hide Xor, ShiftRight, Polynomial;
  }

  lemma {:induction false} ShiftsLinear(x: Register, y: Register, k: nat)
    ensures Shifts(Xor(x, y), k) == Xor(Shifts(x, k), Shifts(y, k))
  {
    hide Shift, Xor;
    if k > 0 {
      ShiftsLinear(x, y, k - 1);
      ShiftLinear(Shifts(x, k - 1), Shifts(y, k - 1));
    }
  }

  /** Zero bits leave no trace but the shift. */
  lemma {:induction false} ZeroBits(c: Register, k: nat)
    requires k <= 8 && forall i | 0 <= i < 8 :: !c[i]
    ensures Shifts(c, k) == ShiftRight(c, k)
  {
    hide ShiftRight, Xor, Polynomial;
    if k == 0 {
      RightOnce(c, 0);
    } else {
      ZeroBits(c, k - 1);
      RightOnce(c, k - 1);
    }
  }

  lemma SplitRegister(c: Register)
    ensures c == Xor(LowByte(c), Rest(c)) && forall i | 0 <= i < 8 :: !Rest(c)[i]
  {
    var l, r := c, Xor(LowByte(c), Rest(c));
    forall i | 0 <= i < 32 ensures l[i] == r[i] {
    }
  }

  lemma HighPart(c: Register, d: Register)
    requires Rest(d) == Falses(32)
    ensures ShiftRight(Rest(Xor(c, d)), 8) == ShiftRight(c, 8)
  {
    assert forall i | 8 <= i < 32 :: Rest(d)[i] == d[i];
    var l, r := ShiftRight(Rest(Xor(c, d)), 8), ShiftRight(c, 8);
    forall i | 0 <= i < 32 ensures l[i] == r[i] {
    }
  }

  /** The table step is eight bit steps. */
  lemma ByteStep(c: Register, d: Register)
    requires Rest(d) == Falses(32)
    ensures Shifts(Xor(c, d), 8) == Xor(Shifts(LowByte(Xor(c, d)), 8), ShiftRight(c, 8))
  {
    var x := Xor(c, d);
    SplitRegister(x);
    HighPart(c, d);
    hide Shifts, Xor, ShiftRight, LowByte, Rest;
    ShiftsLinear(LowByte(x), Rest(x), 8);
    ZeroBits(Rest(x), 8);
  }

  /** Eight bits of a register, from the given one on, as a number. */
  function ByteFrom(c: Register, k: nat): Byte
    requires k <= 24
  {
    EightBits();
    NumberOf(c[k..k + 8])
  }

  /** The low byte as a number stands for the same bits. */
  lemma LowBack(c: Register)
    ensures Spread(ByteFrom(c, 0)) == LowByte(c)
  {
    hide BitsOf, NumberOf;
    BitsBack(c[0..8]);
  }

  method MakeTable() returns (table: seq<Register>)
    ensures |table| == 256 && forall n: Byte :: table[n] == Shifts(Spread(n), 8)
  {
    hide Shift, Spread;
    table := [];
    for n := 0 to 256
      invariant |table| == n && forall m | 0 <= m < n :: table[m] == Shifts(Spread(m), 8)
    {
      var c := Spread(n);
      for k := 0 to 8
        invariant c == Shifts(Spread(n), k)
      {
        c := Shift(c);
      }
      table := table + [c];
    }
  }

  method Crc32Compute(data: seq<Byte>) returns (crc: Register)
    ensures crc == CrcOf(data)
  {
    hide Shifts, Shift, Spread, Xor, ByteFrom, LowByte, Rest, ShiftRight, Trues;
    var table := MakeTable();
    var c := Trues();
    for i := 0 to |data|
      invariant c == Serial(Trues(), data[..i])
    {
      var d := Spread(data[i]);
      assert data[..i + 1][..i] == data[..i];
      ByteStep(c, d);
      LowBack(Xor(c, d));
      c := Xor(table[ByteFrom(Xor(c, d), 0)], ShiftRight(c, 8));
    }
    assert data[..|data|] == data;
    crc := Xor(c, Trues());
  }

  /** pushBE32 of the register. */
  function CrcBytes(c: Register): (r: seq<Byte>)
    ensures |r| == 4
  {
    [ByteFrom(c, 24), ByteFrom(c, 16), ByteFrom(c, 8), ByteFrom(c, 0)]
  }

  // ---- what the checksum catches ----

  /** The top bit of a shifted register tells whether the polynomial went in. */
  lemma ShiftInjective(x: Register, y: Register)
    requires Shift(x) == Shift(y)
    ensures x == y
  {
    assert Shift(x)[31] == x[0] && Shift(y)[31] == y[0];
    if x[0] {
      XorCancels(ShiftRight(x, 1), ShiftRight(y, 1), Polynomial());
    }
    assert x[1..] == ShiftRight(x, 1)[..31] && y[1..] == ShiftRight(y, 1)[..31];
    assert x == [x[0]] + x[1..] && y == [y[0]] + y[1..];
  }

  lemma XorCancels(x: Register, y: Register, z: Register)
    ensures Xor(x, z) == Xor(y, z) ==> x == y
    ensures Xor(z, x) == Xor(z, y) ==> x == y
  {
    XorCommutes(x, z);
    XorCommutes(y, z);
    if Xor(x, z) == Xor(y, z) {
      forall i | 0 <= i < 32 ensures x[i] == y[i] {
        assert Xor(x, z)[i] == Xor(y, z)[i];
      }
    }
  }

  lemma XorCommutes(x: Register, y: Register)
    ensures Xor(x, y) == Xor(y, x)
  {
  }

  lemma {:induction false} ShiftsInjective(x: Register, y: Register, k: nat)
    requires Shifts(x, k) == Shifts(y, k)
    ensures x == y
  {
    hide Shift;
    if k > 0 {
      ShiftInjective(Shifts(x, k - 1), Shifts(y, k - 1));
      ShiftsInjective(x, y, k - 1);
    }
  }

  lemma SpreadInjective(a: Byte, b: Byte)
    requires Spread(a) == Spread(b)
    ensures a == b
  {
    hide BitsOf, NumberOf, Power;
    EightBits();
    NumberBack(a, 8);
    NumberBack(b, 8);
    assert Spread(a)[..8] == BitsOf(a, 8) && Spread(b)[..8] == BitsOf(b, 8);
  }

  /** Different registers stay different over the same bytes. */
  lemma {:induction false} SerialInjective(c: Register, d: Register, data: seq<Byte>)
    requires Serial(c, data) == Serial(d, data)
    ensures c == d
  {
    hide Shifts, Spread, Xor, Trues;
    if data != [] {
      var p, b := data[..|data| - 1], data[|data| - 1];
      ShiftsInjective(Xor(Serial(c, p), Spread(b)), Xor(Serial(d, p), Spread(b)), 8);
      XorCancels(Serial(c, p), Serial(d, p), Spread(b));
      SerialInjective(c, d, p);
    }
  }

  lemma {:induction false} SerialConcat(c: Register, a: seq<Byte>, b: seq<Byte>)
    ensures Serial(c, a + b) == Serial(Serial(c, a), b)
  {
    hide Shifts, Spread, Xor, Trues;
    if b == [] {
      assert a + b == a;
    } else {
      assert (a + b)[..|a + b| - 1] == a + b[..|b| - 1];
      SerialConcat(c, a, b[..|b| - 1]);
    }
  }

  /** Every change of a single byte changes the checksum. */
  lemma CatchesOneByte(pre: seq<Byte>, x: Byte, y: Byte, post: seq<Byte>)
    requires x != y
    ensures CrcOf(pre + [x] + post) != CrcOf(pre + [y] + post)
  {
    hide Shifts, Spread, Xor, Trues;
    var c := Serial(Trues(), pre);
    if CrcOf(pre + [x] + post) == CrcOf(pre + [y] + post) {
      XorCancels(Serial(Trues(), pre + [x] + post), Serial(Trues(), pre + [y] + post), Trues());
      SerialConcat(Trues(), pre + [x], post);
      SerialConcat(Trues(), pre + [y], post);
      SerialInjective(Serial(Trues(), pre + [x]), Serial(Trues(), pre + [y]), post);
      OneByte(Trues(), pre, x);
      OneByte(Trues(), pre, y);
      ShiftsInjective(Xor(c, Spread(x)), Xor(c, Spread(y)), 8);
      XorCancels(Spread(x), Spread(y), c);
      SpreadInjective(x, y);
    }
  }

  lemma OneByte(c: Register, pre: seq<Byte>, x: Byte)
    ensures Serial(c, pre + [x]) == Shifts(Xor(Serial(c, pre), Spread(x)), 8)
  {
    hide Shifts, Spread, Xor, Trues;
    assert (pre + [x])[..|pre + [x]| - 1] == pre;
  }
}
