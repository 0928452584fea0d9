/** The zlib stream of debugger/agent/png_encoder.cpp: stored blocks (section 3.2.4 of RFC 1951)
    between a header and an Adler-32 checksum (RFC 1950), and the decoder that inverts it. */
module Zlib {
  import opened Words
  import opened Numbers
  import opened Wrappers

  // ---- Adler-32 ----

  const MOD := 65521
  const U32 := 0x1_0000_0000

  datatype Sums = Sums(a: nat, b: nat)

  /** Section 2.2 of RFC 1950: both sums modulo 65521 after every byte. */
  function AdlerSums(data: seq<Byte>): (s: Sums)
    ensures s.a < MOD && s.b < MOD
  {
    if data == [] then Sums(1, 0)
    else
      var s := AdlerSums(data[..|data| - 1]);
      var a := (s.a + data[|data| - 1]) % MOD;
      Sums(a, (s.b + a) % MOD)
  }

  function Adler32(data: seq<Byte>): nat { AdlerSums(data).b * 65536 + AdlerSums(data).a }

  lemma ModStep(a: nat, a0: nat, d: nat)
    requires a % MOD == a0
    ensures (a + d) % MOD == (a0 + d) % MOD
  {
    assert a == MOD * (a / MOD) + a0;
    var q := a / MOD;
    assert (MOD * q + (a0 + d)) % MOD == (a0 + d) % MOD;
  }

  function Triangle(n: nat): nat { if n == 0 then 0 else Triangle(n - 1) + n }

  lemma SquareStep(n: int)
    ensures n * (n + 1) == (n - 1) * n + 2 * n
  {
  }

  lemma {:induction false} TriangleClosed(n: nat)
    ensures 2 * Triangle(n) == n * (n + 1)
  {
    if n > 0 {
      TriangleClosed(n - 1);
      SquareStep(n);
    }
  }

  lemma {:induction false} TriangleGrows(n: nat, m: nat)
    requires n <= m
    ensures Triangle(n) <= Triangle(m)
    decreases m
  {
    if n < m {
      TriangleGrows(n, m - 1);
    }
  }

  /** How large the deferred sums can get within a block. */
  function MaxB(n: nat): nat { (MOD - 1) * (n + 1) + 255 * Triangle(n) }

  lemma MaxBStep(n: nat)
    ensures MaxB(n + 1) == MaxB(n) + (MOD - 1) + 255 * (n + 1)
  {
  }

  /** 5552 is the number of bytes for which the sums fit into 32 bits. */
  lemma BlockFits(n: nat)
    requires n <= 5552
    ensures MaxB(n) < U32
  {
    hide Triangle;
    TriangleGrows(n, 5552);
    TriangleClosed(5552);
    assert 2 * Triangle(5552) == 5552 * 5553 == 30830256;
  }

  /** One byte more, and the largest sum no longer fits. */
  lemma BlockLimit()
    ensures MaxB(5553) >= U32
  {
    hide Triangle;
    TriangleClosed(5553);
    assert 2 * Triangle(5553) == 5553 * 5554 == 30841362;
  }

  /** The deferred sums agree with the per-byte ones modulo 65521. */
  ghost predicate Deferred(a: nat, b: nat, data: seq<Byte>, n: nat)
  {
    && a % MOD == AdlerSums(data).a && b % MOD == AdlerSums(data).b
    && a <= MOD - 1 + 255 * n && b <= MaxB(n)
  }

  lemma DeferredStep(a: nat, b: nat, data: seq<Byte>, d: Byte, n: nat)
    requires Deferred(a, b, data, n) && n < 5552
    ensures Deferred(a + d, b + (a + d), data + [d], n + 1)
    ensures a + d < U32 && b + (a + d) < U32
  {
    hide AdlerSums;
    assert (data + [d])[..|data|] == data;
    SumsStep(data, d);
    ModStep(a, AdlerSums(data).a, d);
    var x := (a + d) % MOD;
    ModStep(b, AdlerSums(data).b, a + d);
    ModStep(a + d, x, AdlerSums(data).b);
    BlockFits(n + 1);
    MaxBStep(n);
    hide MaxB;
  }

  lemma SumsStep(data: seq<Byte>, d: Byte)
    ensures AdlerSums(data + [d]) == var s := AdlerSums(data); var x := (s.a + d) % MOD; Sums(x, (s.b + x) % MOD)
  {
    hide AdlerSums;
    var t := data + [d];
    assert t[..|t| - 1] == data && t[|t| - 1] == d;
    AdlerStep(t);
  }

  lemma AdlerStep(t: seq<Byte>)
    requires t != []
    ensures var s := AdlerSums(t[..|t| - 1]);
            var x := (s.a + t[|t| - 1]) % MOD;
            AdlerSums(t) == Sums(x, (s.b + x) % MOD)
  {
  }

  /** Reduced only every 5552 bytes, in 32-bit arithmetic. */
  method Adler32Compute(data: seq<Byte>) returns (r: nat)
    ensures r == Adler32(data) && r < U32
  {
    hide AdlerSums, MaxB, Deferred;
    var a: nat, b: nat := 1, 0;
    var i := 0;
    assert Deferred(1, 0, data[..0], 0) by { Start(data); }
    while i < |data|
      invariant i <= |data| && Deferred(a, b, data[..i], 0)
    {
      var block := |data| - i;
      if block > 5552 {
        block := 5552;
      }
      var end := i + block;
      ghost var from := i;
      while i < end
        invariant from <= i <= end && end <= |data| && end - from <= 5552
        invariant Deferred(a, b, data[..i], i - from)
      {
        DeferredStep(a, b, data[..i], data[i], i - from);
        assert data[..i + 1] == data[..i] + [data[i]];
        a := (a + data[i]) % U32;
        b := (b + a) % U32;
        i := i + 1;
      }
      Reduce(a, b, data[..i], i - from);
      a := a % MOD;
      b := b % MOD;
    }
    assert data[..|data|] == data;
    assert a == AdlerSums(data).a && b == AdlerSums(data).b by { Reduced(a, b, data); }
    r := b * 65536 + a;
  }

  lemma Start(data: seq<Byte>)
    ensures Deferred(1, 0, data[..0], 0)
  {
  }

  lemma Reduce(a: nat, b: nat, data: seq<Byte>, n: nat)
    requires Deferred(a, b, data, n)
    ensures Deferred(a % MOD, b % MOD, data, 0)
  {
    hide AdlerSums;
    assert Triangle(0) == 0 && MaxB(0) == MOD - 1;
  }

  lemma Reduced(a: nat, b: nat, data: seq<Byte>)
    requires Deferred(a, b, data, 0)
    ensures a == AdlerSums(data).a && b == AdlerSums(data).b
  {
    assert Triangle(0) == 0 && MaxB(0) == MOD - 1;
  }

  // ---- big-endian numbers ----

  /** pushBE32 of a 32-bit value. */
  function Be32(v: nat): (r: seq<Byte>)
    ensures |r| == 4
  {
    [v / 0x100_0000 % 256, v / 0x1_0000 % 256, v / 256 % 256, v % 256]
  }

  function ReadBe32(s: seq<Byte>): nat
    requires |s| == 4
  {
    var hi: nat := Pair(s[0], s[1]);
    65536 * hi + Pair(s[2], s[3])
  }

  lemma Be32Inverse(v: nat)
    requires v < U32
    ensures ReadBe32(Be32(v)) == v
  {
    var x := v / 256;
    var y := x / 256;
    var z := y / 256;
    DivUnique(v, 0x1_0000, y, 256 * (x % 256) + v % 256);
    DivUnique(v, 0x100_0000, z, 65536 * (y % 256) + 256 * (x % 256) + v % 256);
    DivUnique(z, 256, 0, z);
  }

  // ---- stored blocks ----

  const MAX_BLOCK := 65535

  function BlockHeader(n: Word, last: bool): (h: seq<Byte>)
    ensures |h| == 5
  {
    var nlen := 65535 - n;
    [Flag(last), n % 256, n / 256, nlen % 256, nlen / 256]
  }

  /** Stored blocks of at most 65535 bytes, the last one marked. */
  function Stored(raw: seq<Byte>): seq<Byte>
  {
    if |raw| <= MAX_BLOCK then BlockHeader(|raw|, true) + raw
    else BlockHeader(MAX_BLOCK, false) + raw[..MAX_BLOCK] + Stored(raw[MAX_BLOCK..])
  }

  datatype Inflated = Inflated(data: seq<Byte>, rest: seq<Byte>)

  /** Section 3.2.4 of RFC 1951: blocks without compression; other block types are not read. */
  function Inflate(s: seq<Byte>): Option<Inflated>
    decreases |s|
  {
    if |s| < 5 || s[0] / 2 % 4 != 0 then None
    else
      var n: nat := Pair(s[2], s[1]);
      if Pair(s[4], s[3]) != 65535 - n || |s| < 5 + n then None
      else
        var block := s[5..5 + n];
        if s[0] % 2 == 1 then Some(Inflated(block, s[5 + n..]))
        else match Inflate(s[5 + n..])
             case None => None
             case Some(r) => Some(Inflated(block + r.data, r.rest))
  }

  lemma HeaderReads(n: Word, last: bool)
    ensures var h := BlockHeader(n, last);
            && h[0] / 2 % 4 == 0 && (h[0] % 2 == 1 <==> last)
            && Pair(h[2], h[1]) == n && Pair(h[4], h[3]) == 65535 - n
  {
  }

  lemma OneBlock(block: seq<Byte>, last: bool, rest: seq<Byte>)
    requires |block| <= MAX_BLOCK
    ensures var s := BlockHeader(|block|, last) + block + rest;
            Inflate(s) == if last then Some(Inflated(block, rest))
                          else match Inflate(rest)
                               case None => None
                               case Some(r) => Some(Inflated(block + r.data, r.rest))
  {
    var h := BlockHeader(|block|, last);
    var s := h + block + rest;
    HeaderReads(|block|, last);
    hide BlockHeader;
    assert s[0] == h[0] && s[1] == h[1] && s[2] == h[2] && s[3] == h[3] && s[4] == h[4];
    assert s[5..5 + |block|] == block && s[5 + |block|..] == rest;
  }

  lemma {:induction false} StoredInverse(raw: seq<Byte>, rest: seq<Byte>)
    ensures Inflate(Stored(raw) + rest) == Some(Inflated(raw, rest))
    decreases |raw|
  {
    hide BlockHeader, Inflate;
    if |raw| <= MAX_BLOCK {
      OneBlock(raw, true, rest);
    } else {
      var block, more := raw[..MAX_BLOCK], raw[MAX_BLOCK..];
      StoredInverse(more, rest);
      OneBlock(block, false, Stored(more) + rest);
      var h := BlockHeader(MAX_BLOCK, false);
      assert h + block + Stored(more) + rest == h + block + (Stored(more) + rest);
      assert block + more == raw;
    }
  }

  lemma StoredStep(raw: seq<Byte>, off: nat)
    requires off <= |raw|
    ensures var r := |raw| - off;
            Stored(raw[off..])
            == if r <= MAX_BLOCK then BlockHeader(r, true) + raw[off..off + r]
               else BlockHeader(MAX_BLOCK, false) + raw[off..off + MAX_BLOCK] + Stored(raw[off + MAX_BLOCK..])
  {
    hide BlockHeader;
    var r := raw[off..];
    if |r| > MAX_BLOCK {
      assert r[..MAX_BLOCK] == raw[off..off + MAX_BLOCK] && r[MAX_BLOCK..] == raw[off + MAX_BLOCK..];
    } else {
      assert r == raw[off..off + |r|];
    }
  }

  /** The do-while loop over the raw bytes. */
  method StoreBlocks(raw: seq<Byte>) returns (idat: seq<Byte>)
    ensures idat == Stored(raw)
  {
    hide BlockHeader, Stored, BlocksLeft;
    idat := [];
    var off: nat := 0;
    var first := true;
    assert BlocksLeft(raw, idat, off, false) by { NoBlocksYet(raw); }
    while first || off < |raw|
      invariant off <= |raw| && (first ==> off == 0) && BlocksLeft(raw, idat, off, !first && off == |raw|)
      decreases if first then 1 else 0, |raw| - off
    {
      first := false;
      NextBlock(raw, idat, off);
      var remaining := |raw| - off;
      var n := if remaining > MAX_BLOCK then MAX_BLOCK else remaining;
      var last := remaining <= MAX_BLOCK;
      idat := idat + (BlockHeader(n, last) + raw[off..off + n]);
      off := off + n;
    }
    AllBlocks(raw, idat, off);
  }

  /** What the blocks written so far leave to be stored, from offset `off` on. */
  predicate BlocksLeft(raw: seq<Byte>, idat: seq<Byte>, off: nat, done: bool)
  {
    off <= |raw| && Stored(raw) == idat + if done then [] else Stored(raw[off..])
  }

  lemma NoBlocksYet(raw: seq<Byte>)
    ensures BlocksLeft(raw, [], 0, false)
  {
    hide Stored;
    assert raw[0..] == raw;
  }

  lemma AllBlocks(raw: seq<Byte>, idat: seq<Byte>, off: nat)
    requires BlocksLeft(raw, idat, off, true)
    ensures idat == Stored(raw)
  {
    hide Stored;
  }

  lemma NextBlock(raw: seq<Byte>, idat: seq<Byte>, off: nat)
    requires BlocksLeft(raw, idat, off, false)
    ensures var r := |raw| - off;
            if r <= MAX_BLOCK then BlocksLeft(raw, idat + (BlockHeader(r, true) + raw[off..off + r]), off + r, true)
            else BlocksLeft(raw, idat + (BlockHeader(MAX_BLOCK, false) + raw[off..off + MAX_BLOCK]), off + MAX_BLOCK,
              false)
  {
    hide BlockHeader, Stored;
    StoredStep(raw, off);
    if |raw| - off > MAX_BLOCK {
      var h, block, rest := BlockHeader(MAX_BLOCK, false), raw[off..off + MAX_BLOCK], Stored(raw[off + MAX_BLOCK..]);
      assert idat + (h + block + rest) == (idat + (h + block)) + rest;
    }
  }

  // ---- the zlib stream ----

  function Zlibbed(raw: seq<Byte>): seq<Byte> { [0x78, 0x01] + Stored(raw) + Be32(Adler32(raw)) }

  /** RFC 1950: method 8, header check, no dictionary, and the checksum of what was inflated. */
  function Unzlib(s: seq<Byte>): Option<seq<Byte>>
  {
    if |s| < 2 || s[0] % 16 != 8 || Pair(s[0], s[1]) % 31 != 0 || s[1] / 32 % 2 != 0 then None
    else match Inflate(s[2..])
         case None => None
         case Some(r) => if |r.rest| == 4 && ReadBe32(r.rest) == Adler32(r.data) then Some(r.data) else None
  }

  lemma AdlerFits(data: seq<Byte>)
    ensures Adler32(data) < U32
  {
  }

  lemma ZlibInverse(raw: seq<Byte>)
    ensures Unzlib(Zlibbed(raw)) == Some(raw)
  {
    hide Inflate, Stored, Adler32, Be32, ReadBe32;
    var sum := Be32(Adler32(raw));
    var s := Zlibbed(raw);
    StoredInverse(raw, sum);
    AdlerFits(raw);
    Be32Inverse(Adler32(raw));
    assert s[0] == 0x78 && s[1] == 0x01;
    assert s[2..] == Stored(raw) + sum;
  }
}
