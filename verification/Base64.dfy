/** base64Encode of debugger/agent/png_encoder.cpp, and section 4 of RFC 4648 read backwards. */
module Base64 {
  import opened Words
  import opened Wrappers
  import opened Numbers

  type Sextet = x: int | 0 <= x < 64

  /** The 64 letters A-Z, a-z, 0-9, + and / in this order. */
  function Letter(x: Sextet): char
  {
    if x < 26 then 'A' + x as char
    else if x < 52 then 'a' + (x - 26) as char
    else if x < 62 then '0' + (x - 52) as char
    else if x == 62 then '+' else '/'
  }

  function Value(c: char): Option<Sextet>
  {
    if 'A' <= c <= 'Z' then Some((c - 'A') as int)
    else if 'a' <= c <= 'z' then Some((c - 'a') as int + 26)
    else if '0' <= c <= '9' then Some((c - '0') as int + 52)
    else if c == '+' then Some(62)
    else if c == '/' then Some(63)
    else None
  }

  /** The letters are told apart by their values, and none is the pad. */
  lemma LetterValue(x: Sextet)
    ensures Value(Letter(x)) == Some(x) && Letter(x) != '='
  {
  }

  // ---- three bytes, four sextets ----

  function Group(a: Byte, b: Byte, c: Byte): nat
  {
    var x: nat, y: nat, z: nat := a, b, c;
    65536 * x + 256 * y + z
  }

  function SextetOf(n: nat, i: nat): Sextet
    requires i < 4
  {
    match i
    case 0 => n / 262144 % 64
    case 1 => n / 4096 % 64
    case 2 => n / 64 % 64
    case _ => n % 64
  }

  function Joined(p: Sextet, q: Sextet, r: Sextet, s: Sextet): nat
  {
    var w: nat, x: nat, y: nat, z: nat := p, q, r, s;
    262144 * w + 4096 * x + 64 * y + z
  }

  lemma GroupJoined(n: nat)
    requires n < 16777216
    ensures Joined(SextetOf(n, 0), SextetOf(n, 1), SextetOf(n, 2), SextetOf(n, 3)) == n
  {
    var x := n / 64;
    var y := x / 64;
    var z := y / 64;
    assert n / 4096 == y && n / 262144 == z && z < 64;
    assert y == 64 * z + y % 64 && x == 64 * y + x % 64 && n == 64 * x + n % 64;
  }

  lemma GroupBytes(a: Byte, b: Byte, c: Byte)
    ensures var n := Group(a, b, c);
            n < 16777216 && n / 65536 % 256 == a && n / 256 % 256 == b && n % 256 == c
  {
    var n := Group(a, b, c);
    var x: nat, y: nat := a, b;
    assert n / 256 == 256 * x + y;
    assert n / 65536 == x;
  }

  // ---- encoding ----

  function Quad(n: nat): string
  {
    [Letter(SextetOf(n, 0)), Letter(SextetOf(n, 1)), Letter(SextetOf(n, 2)), Letter(SextetOf(n, 3))]
  }

  function Encode(d: seq<Byte>): string
  {
    if |d| == 0 then ""
    else if |d| == 1 then
      var n := Group(d[0], 0, 0); [Letter(SextetOf(n, 0)), Letter(SextetOf(n, 1)), '=', '=']
    else if |d| == 2 then
      var n := Group(d[0], d[1], 0); [Letter(SextetOf(n, 0)), Letter(SextetOf(n, 1)), Letter(SextetOf(n, 2)), '=']
    else Quad(Group(d[0], d[1], d[2])) + Encode(d[3..])
  }

  lemma {:induction false} EncodedLength(d: seq<Byte>)
    ensures |Encode(d)| == (|d| + 2) / 3 * 4
  {
    hide Letter, SextetOf, Group;
    if |d| >= 3 {
      EncodedLength(d[3..]);
      assert (|d| + 2) / 3 == (|d[3..]| + 2) / 3 + 1;
    }
  }

  method Base64Encode(data: seq<Byte>) returns (out: string)
    ensures out == Encode(data)
  {
    hide Letter, SextetOf, Group;
    out := "";
    var i := 0;
    assert data[0..] == data;
    while i + 3 <= |data|
      invariant 0 <= i <= |data| && Encode(data) == out + Encode(data[i..])
    {
      var n := Group(data[i], data[i + 1], data[i + 2]);
      assert data[i..][3..] == data[i + 3..];
      out := out + [Letter(SextetOf(n, 0)), Letter(SextetOf(n, 1)), Letter(SextetOf(n, 2)), Letter(SextetOf(n, 3))];
      i := i + 3;
    }
    ghost var rest := data[i..];
    if i < |data| {
      var two := i + 1 < |data|;
      var n := Group(data[i], if two then data[i + 1] else 0, 0);
      assert rest[0] == data[i] && (two ==> rest[1] == data[i + 1]);
      out := out + [Letter(SextetOf(n, 0)), Letter(SextetOf(n, 1)), if two then Letter(SextetOf(n, 2)) else '=', '='];
    }
  }

  // ---- decoding ----

  /** Groups of four letters; pads only at the end, and over zero bits only. */
  function Decode(s: string): Option<seq<Byte>>
  {
    if s == "" then Some([])
    else if |s| < 4 || Value(s[0]) == None || Value(s[1]) == None then None
    else
      var p, q := Value(s[0]).value, Value(s[1]).value;
      if s[2] == '=' then
        if s[3] == '=' && |s| == 4 && q % 16 == 0 then Some([Joined(p, q, 0, 0) / 65536 % 256]) else None
      else if Value(s[2]) == None then None
      else
        var r := Value(s[2]).value;
        if s[3] == '=' then
          if |s| == 4 && r % 4 == 0 then Some([Joined(p, q, r, 0) / 65536 % 256, Joined(p, q, r, 0) / 256 % 256])
            else None
        else if Value(s[3]) == None then None
        else
          var n := Joined(p, q, r, Value(s[3]).value);
          match Decode(s[4..])
          case None => None
          case Some(d) => Some([n / 65536 % 256, n / 256 % 256, n % 256] + d)
  }

  lemma PadsAreZero(a: Byte, b: Byte)
    ensures SextetOf(Group(a, b, 0), 3) == 0 && SextetOf(Group(a, b, 0), 2) % 4 == 0
    ensures SextetOf(Group(a, 0, 0), 2) == 0 && SextetOf(Group(a, 0, 0), 1) % 16 == 0
  {
    var x: nat, y: nat := a, b;
    DivUnique(Group(a, b, 0), 64, 4 * (256 * x + y), 0);
    DivUnique(Group(a, b, 0), 64, 1024 * x + 4 * y, 0);
    DivUnique(Group(a, 0, 0), 64, 64 * (16 * x), 0);
    DivUnique(Group(a, 0, 0), 4096, 16 * x, 0);
    Multiples(256 * x + y);
    Multiples(16 * x);
    Multiples(x);
  }

  /** Multiples of 4, 16 and 64 keep their zeros in a sextet. */
  lemma Multiples(q: nat)
    ensures 4 * q % 64 % 4 == 0 && 16 * q % 64 % 16 == 0 && 64 * q % 64 == 0
  {
    LowSextet(q, 4, 16);
    LowSextet(q, 16, 4);
    DivUnique(64 * q, 64, q, 0);
  }

  lemma LowSextet(q: nat, z: nat, w: nat)
    requires z > 0 && w > 0 && z * w == 64
    ensures z * q % 64 % z == 0
  {
    var h, l := q / w, q % w;
    DivUnique(q, w, h, l);
    Regroup(z, w, h, l);
    DivUnique(z * q, 64, h, z * l);
    DivUnique(z * l, z, l, 0);
  }

  lemma Regroup(z: nat, w: nat, h: nat, l: nat)
    requires l < w && z > 0
    ensures z * (w * h + l) == (z * w) * h + z * l && 0 <= z * l < z * w
  {
  }

  lemma GroupReads(a: Byte, b: Byte, c: Byte)
    ensures var n := Group(a, b, c);
            && (forall i: nat | i < 4 ::
                  Value(Letter(SextetOf(n, i))) == Some(SextetOf(n, i)) && Letter(SextetOf(n, i)) != '=')
            && Joined(SextetOf(n, 0), SextetOf(n, 1), SextetOf(n, 2), SextetOf(n, 3)) == n
            && n / 65536 % 256 == a && n / 256 % 256 == b && n % 256 == c
  {
    hide Letter, Value, SextetOf, Group, Joined;
    var n := Group(a, b, c);
    GroupBytes(a, b, c);
    GroupJoined(n);
    forall i: nat | i < 4
      ensures Value(Letter(SextetOf(n, i))) == Some(SextetOf(n, i)) && Letter(SextetOf(n, i)) != '='
    {
      LetterValue(SextetOf(n, i));
    }
  }

  lemma {:induction false} RoundTrip(d: seq<Byte>)
    ensures Decode(Encode(d)) == Some(d)
  {
    hide Letter, Value, SextetOf, Group, Joined;
    if |d| > 0 {
      var a, b, c := d[0], if |d| > 1 then d[1] else 0, if |d| > 2 then d[2] else 0;
      var n := Group(a, b, c);
      var e := Encode(d);
      GroupReads(a, b, c);
      PadsAreZero(a, b);
      if |d| >= 3 {
        RoundTrip(d[3..]);
        assert e == Quad(n) + Encode(d[3..]) && e[4..] == Encode(d[3..]);
        assert [d[0], d[1], d[2]] + d[3..] == d;
      } else if |d| == 2 {
        assert d == [a, b];
      } else {
        assert d == [a];
      }
    }
  }
}
