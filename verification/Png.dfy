/** encodeRGBA of debugger/agent/png_encoder.cpp and the PNG reader that inverts it. */
module Png {
  import opened Words
  import opened Wrappers
  import opened Crc
  import opened Zlib

  const SIGNATURE: seq<Byte> := [0x89, 80, 78, 71, 0x0D, 0x0A, 0x1A, 0x0A]
  const IHDR: seq<Byte> := [73, 72, 68, 82]
  const IDAT: seq<Byte> := [73, 68, 65, 84]
  const IEND: seq<Byte> := [73, 69, 78, 68]

  // ---- chunks ----

  /** Length, type, data, and the checksum of type and data; the length is stored in 32 bits. */
  function Chunk(kind: seq<Byte>, data: seq<Byte>): seq<Byte>
  {
    Be32(|data|) + kind + data + CrcBytes(CrcOf(kind + data))
  }

  method AppendChunk(out0: seq<Byte>, kind: seq<Byte>, data: seq<Byte>) returns (out: seq<Byte>)
    ensures out == out0 + Chunk(kind, data)
  {
    hide Be32, CrcBytes, CrcOf;
    out := out0 + Be32(|data|);
    var start := |out|;
    out := out + kind;
    out := out + data;
    assert out[start..] == kind + data;
    var crc := Crc32Compute(out[start..]);
    out := out + CrcBytes(crc);
  }

  datatype ChunkRead = ChunkRead(kind: seq<Byte>, data: seq<Byte>, rest: seq<Byte>)

  /** Section 3.2 of RFC 2083. */
  function ReadChunk(s: seq<Byte>): (r: Option<ChunkRead>)
    ensures r.Some? ==> |r.value.rest| < |s|
  {
    if |s| < 12 then None
    else
      var n := ReadBe32(s[..4]);
      if |s| < 12 + n || s[8 + n..12 + n] != CrcBytes(CrcOf(s[4..8 + n])) then None
      else Some(ChunkRead(s[4..8], s[8..8 + n], s[12 + n..]))
  }

  lemma ChunkReads(kind: seq<Byte>, data: seq<Byte>, rest: seq<Byte>)
    requires |kind| == 4 && |data| < U32
    ensures ReadChunk(Chunk(kind, data) + rest) == Some(ChunkRead(kind, data, rest))
  {
    hide Be32, ReadBe32, CrcBytes, CrcOf;
    Be32Inverse(|data|);
    var n, crc := |data|, CrcBytes(CrcOf(kind + data));
    var s := Chunk(kind, data) + rest;
    assert s == Be32(n) + (kind + (data + (crc + rest)));
    assert s[..4] == Be32(n);
    assert s[4..8 + n] == kind + data;
    assert s[4..8] == kind;
    assert s[8..8 + n] == data;
    assert s[8 + n..12 + n] == crc;
    assert s[12 + n..] == rest;
  }

  // ---- scanlines ----

  lemma OneRowLess(rowBytes: nat, height: nat)
    requires height > 0
    ensures rowBytes * height == rowBytes + rowBytes * (height - 1)
  {
  }

  /** Every row behind a filter byte 0. */
  function Scanlines(rgba: seq<Byte>, rowBytes: nat, height: nat): (r: seq<Byte>)
    requires |rgba| == rowBytes * height
    decreases height
  {
    if height == 0 then []
    else
      OneRowLess(rowBytes, height);
      [0] + rgba[..rowBytes] + Scanlines(rgba[rowBytes..], rowBytes, height - 1)
  }

  /** Reads back rows with filter type None; other filters are not read. */
  function Unfilter(raw: seq<Byte>, rowBytes: nat, height: nat): Option<seq<Byte>>
    decreases height
  {
    if height == 0 then (if raw == [] then Some([]) else None)
    else if |raw| < rowBytes + 1 || raw[0] != 0 then None
    else match Unfilter(raw[rowBytes + 1..], rowBytes, height - 1)
         case None => None
         case Some(rest) => Some(raw[1..rowBytes + 1] + rest)
  }

  lemma {:induction false} UnfilterInverse(rgba: seq<Byte>, rowBytes: nat, height: nat)
    requires |rgba| == rowBytes * height
    ensures Unfilter(Scanlines(rgba, rowBytes, height), rowBytes, height) == Some(rgba)
    decreases height
  {
    if height > 0 {
      OneRowLess(rowBytes, height);
      var row, more := rgba[..rowBytes], rgba[rowBytes..];
      UnfilterInverse(more, rowBytes, height - 1);
      var rest := Scanlines(more, rowBytes, height - 1);
      assert Scanlines(rgba, rowBytes, height) == [0] + row + rest;
      hide Scanlines;
      OneRow(row, rest, height);
      assert row + more == rgba;
    }
  }

  lemma OneRow(row: seq<Byte>, rest: seq<Byte>, height: nat)
    requires height > 0
    ensures Unfilter([0] + row + rest, |row|, height) ==
              match Unfilter(rest, |row|, height - 1) case None => None case Some(r) => Some(row + r)
  {
    var raw := [0] + row + rest;
    assert raw[0] == 0 && raw[1..|row| + 1] == row && raw[|row| + 1..] == rest;
  }

  lemma RowInside(y: nat, rowBytes: nat, height: nat)
    requires y < height
    ensures rowBytes * y + rowBytes == rowBytes * (y + 1) <= rowBytes * height
    ensures rowBytes * (height - y) == rowBytes * height - rowBytes * y
    ensures rowBytes * (height - y - 1) == rowBytes * height - rowBytes * (y + 1)
  {
    var left: nat := height - y - 1;
    Distributes(rowBytes, y, 1);
    Distributes(rowBytes, left, 1);
    Distributes(rowBytes, y + 1, left);
  }

  lemma Distributes(n: nat, a: nat, b: nat)
    ensures n * (a + b) == n * a + n * b && 0 <= n * a && 0 <= n * b
  {
  }

  method MakeScanlines(rgba: seq<Byte>, rowBytes: nat, height: nat) returns (raw: seq<Byte>)
    requires |rgba| == rowBytes * height
    ensures raw == Scanlines(rgba, rowBytes, height)
  {
    hide Scanlines, RowsLeft;
    raw := [];
    var at: nat := 0;
    FirstRow(rgba, rowBytes, height);
    for y := 0 to height
      invariant RowsLeft(rgba, rowBytes, height, raw, y, at)
    {
      NextRow(rgba, rowBytes, height, raw, y, at);
      raw := raw + ([0] + rgba[at..at + rowBytes]);
      at := at + rowBytes;
    }
    LastRow(rgba, rowBytes, height, raw, at);
  }

  /** With y rows written, the rest of the image at offset `at` is still to be written. */
  predicate RowsLeft(rgba: seq<Byte>, rowBytes: nat, height: nat, raw: seq<Byte>, y: nat, at: nat)
  {
    && |rgba| == rowBytes * height && y <= height && at == rowBytes * y && at <= |rgba|
    && |rgba[at..]| == rowBytes * (height - y)
    && Scanlines(rgba, rowBytes, height) == raw + Scanlines(rgba[at..], rowBytes, height - y)
  }

  lemma FirstRow(rgba: seq<Byte>, rowBytes: nat, height: nat)
    requires |rgba| == rowBytes * height
    ensures RowsLeft(rgba, rowBytes, height, [], 0, 0)
  {
    hide Scanlines;
    assert rgba[0..] == rgba;
  }

  lemma NextRow(rgba: seq<Byte>, rowBytes: nat, height: nat, raw: seq<Byte>, y: nat, at: nat)
    requires RowsLeft(rgba, rowBytes, height, raw, y, at) && y < height
    ensures at + rowBytes <= |rgba|
    ensures RowsLeft(rgba, rowBytes, height, raw + ([0] + rgba[at..at + rowBytes]), y + 1, at + rowBytes)
  {
    hide Scanlines;
    RowInside(y, rowBytes, height);
    var rest := rgba[at..];
    var row, more := rest[..rowBytes], rest[rowBytes..];
    assert row == rgba[at..at + rowBytes] && more == rgba[at + rowBytes..];
    ScanlinesStep(rest, rowBytes, height - y);
    assert raw + ([0] + row + Scanlines(more, rowBytes, height - y - 1))
        == raw + ([0] + row) + Scanlines(more, rowBytes, height - y - 1);
  }

  lemma ScanlinesStep(rgba: seq<Byte>, rowBytes: nat, height: nat)
    requires |rgba| == rowBytes * height && height > 0
    ensures rowBytes <= |rgba| && |rgba[rowBytes..]| == rowBytes * (height - 1)
    ensures Scanlines(rgba, rowBytes, height)
         == [0] + rgba[..rowBytes] + Scanlines(rgba[rowBytes..], rowBytes, height - 1)
  {
    OneRowLess(rowBytes, height);
  }

  lemma LastRow(rgba: seq<Byte>, rowBytes: nat, height: nat, raw: seq<Byte>, at: nat)
    requires RowsLeft(rgba, rowBytes, height, raw, height, at)
    ensures raw == Scanlines(rgba, rowBytes, height)
  {
  }

  // ---- the file ----

  function Header(width: nat, height: nat): (r: seq<Byte>)
    ensures |r| == 13
  {
    Be32(width) + Be32(height) + [8, 6, 0, 0, 0]
  }

  function Encoded(rgba: seq<Byte>, width: nat, height: nat): seq<Byte>
    requires |rgba| == 4 * width * height
  {
    SIGNATURE + Chunk(IHDR, Header(width, height)) + Chunk(IDAT, Zlibbed(Scanlines(rgba, 4 * width, height)))
      + Chunk(IEND, [])
  }

  method EncodeRGBA(rgba: seq<Byte>, width: int, height: int) returns (out: seq<Byte>)
    requires width > 0 && height > 0 ==> |rgba| == 4 * width * height
    ensures out == if width <= 0 || height <= 0 then [] else Encoded(rgba, width, height)
  {
    if width <= 0 || height <= 0 {
      return [];
    }
    hide Chunk, Header, Be32, Stored, Adler32, Scanlines;
    out := AppendChunk(SIGNATURE, IHDR, Header(width, height));
    var raw := MakeScanlines(rgba, 4 * width, height);
    var blocks := StoreBlocks(raw);
    var sum := Adler32Compute(raw);
    out := AppendChunk(out, IDAT, [0x78, 0x01] + blocks + Be32(sum));
    out := AppendChunk(out, IEND, []);
  }

  datatype Picture = Picture(width: nat, height: nat, rgba: seq<Byte>)

  /** The data of the IDAT chunks up to IEND. */
  function Collect(s: seq<Byte>): Option<seq<Byte>>
    decreases |s|
  {
    match ReadChunk(s)
    case None => None
    case Some(c) =>
      if c.kind == IEND then (if c.data == [] && c.rest == [] then Some([]) else None)
      else if c.kind != IDAT then None
      else match Collect(c.rest)
           case None => None
           case Some(d) => Some(c.data + d)
  }

  function ReadHeader(d: seq<Byte>): Option<(nat, nat)>
  {
    if |d| != 13 || d[8..] != [8, 6, 0, 0, 0] || ReadBe32(d[..4]) == 0 || ReadBe32(d[4..8]) == 0 then None
    else Some((ReadBe32(d[..4]), ReadBe32(d[4..8])))
  }

  /** Eight-bit RGBA images without interlacing. */
  function Decode(s: seq<Byte>): Option<Picture>
  {
    if |s| < 8 || s[..8] != SIGNATURE then None
    else match ReadChunk(s[8..])
         case None => None
         case Some(c) =>
           if c.kind != IHDR || ReadHeader(c.data) == None then None
           else
             var (w, h) := ReadHeader(c.data).value;
             match Collect(c.rest)
             case None => None
             case Some(z) =>
               (match Unzlib(z)
                case None => None
                case Some(raw) =>
                  (match Unfilter(raw, 4 * w, h)
                   case None => None
                   case Some(rgba) => Some(Picture(w, h, rgba))))
  }

  lemma HeaderReadsBack(width: nat, height: nat)
    requires 0 < width < U32 && 0 < height < U32
    ensures ReadHeader(Header(width, height)) == Some((width, height))
  {
    hide Be32, ReadBe32;
    Be32Inverse(width);
    Be32Inverse(height);
    var d := Header(width, height);
    assert d[..4] == Be32(width) && d[4..8] == Be32(height) && d[8..] == [8, 6, 0, 0, 0];
  }

  lemma Collected(z: seq<Byte>)
    requires |z| < U32
    ensures Collect(Chunk(IDAT, z) + Chunk(IEND, [])) == Some(z)
  {
    hide ReadChunk, Chunk;
    ChunkReads(IDAT, z, Chunk(IEND, []));
    ChunkReads(IEND, [], []);
    assert Chunk(IEND, []) + [] == Chunk(IEND, []);
    assert Collect(Chunk(IEND, [])) == Some([]);
    assert z + [] == z;
  }

  /** Decoding what was encoded gives the image back, for every image whose data fits one chunk. */
  lemma RoundTrip(rgba: seq<Byte>, width: nat, height: nat)
    requires 0 < width < 0x8000_0000 && 0 < height < 0x8000_0000 && |rgba| == 4 * width * height
    requires |Zlibbed(Scanlines(rgba, 4 * width, height))| < U32
    ensures Decode(Encoded(rgba, width, height)) == Some(Picture(width, height, rgba))
  {
    hide Chunk, Header, Zlibbed, Unzlib, Collect, ReadHeader, Unfilter, Scanlines, ReadChunk;
    var raw := Scanlines(rgba, 4 * width, height);
    var z := Zlibbed(raw);
    var s := Encoded(rgba, width, height);
    var body := Chunk(IDAT, z) + Chunk(IEND, []);
    assert s == SIGNATURE + (Chunk(IHDR, Header(width, height)) + body);
    assert s[..8] == SIGNATURE && s[8..] == Chunk(IHDR, Header(width, height)) + body;
    ChunkReads(IHDR, Header(width, height), body);
    HeaderReadsBack(width, height);
    Collected(z);
    ZlibInverse(raw);
    UnfilterInverse(rgba, 4 * width, height);
  }

  /** How large that data is: five bytes for every started 65535, and six for header and checksum. */
  lemma {:induction false} StoredSize(raw: seq<Byte>)
    requires raw != []
    ensures |Stored(raw)| == |raw| + 5 * ((|raw| + 65534) / 65535)
    decreases |raw|
  {
    if |raw| > MAX_BLOCK {
      StoredSize(raw[MAX_BLOCK..]);
    }
  }
}
