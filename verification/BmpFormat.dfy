/** The layout of a Windows bitmap file: headers, palette and rows. */
module BmpFormat {
  import opened Bytes
  import opened MemStream
  import opened Reader
  import Rle4

  const BI_RGB := 0
  const BI_RLE8 := 1
  const BI_RLE4 := 2
  const BI_BITFIELDS := 3
  const SIZEOF_BMFH := 14
  const SIZEOF_BMIH := 40
  const OS2INFOHEADERSIZE := 12
  const WININFOHEADERSIZE := 40

  /** "BM", little-endian. */
  const MAGIC := 19778

  datatype Rgb = Rgb(r: byte, g: byte, b: byte)

  class MyBitmap {
    var w: nat
    var h: nat
    var depth: nat
    var pitch: nat
    var frames: nat
    var size: int
    var bits: array<byte>

    constructor ()
      ensures fresh(bits) && bits.Length == 0
    {
      w, h, depth, pitch, frames, size := 0, 0, 0, 0, 0, 0;
      bits := new byte[0];
    }
  }

  // ---------- sizes ----------

  /** The pitch that the loader computes: rows of whole double words. */
  function Pitch(w: nat, depth: nat): nat {
    (w * depth + 31) / 32 * 4
  }

  /** The depth of the file that the saver writes for a bitmap. */
  function FileDepth(depth: nat): nat {
    if depth == 4 then 4 else if depth == 8 then 8 else 24
  }

  /** The octets of a row that carry pixels. */
  function RowSize(w: nat, depth: nat): nat {
    if depth == 4 then Rle4.Bytes4(w) else if depth == 8 then w else w * 3
  }

  /** The size of a row that the saver computes. */
  function ScanlineBytes(w: nat, depth: nat): nat {
    (RowSize(w, depth) + 3) / 4 * 4
  }

  /** It is the least number of whole double words that holds the bits of the row. */
  lemma ScanlineIsLeast(w: nat, depth: nat)
    ensures var n := ScanlineBytes(w, depth); n % 4 == 0 && 8 * n - 32 < w * FileDepth(depth) <= 8 * n
  {}

  lemma OctetPitch(n: nat)
    ensures (n * 8 + 31) / 32 == (n + 3) / 4
  {
    var q, r := (n + 3) / 4, (n + 3) % 4;
    ModUnique(n * 8 + 31, 32, q, 8 * r + 7);
  }

  lemma NibblePitch(w: nat)
    ensures (w * 4 + 31) / 32 == (Rle4.Bytes4(w) + 3) / 4
  {
    var n := Rle4.Bytes4(w);
    var q, r := (n + 3) / 4, (n + 3) % 4;
    ModUnique(w * 4 + 31, 32, q, 8 * r + 7 - 4 * (w % 2));
  }

  /** The loader's pitch of a saved file is the saver's row size. */
  lemma PitchIsScanlineBytes(w: nat, depth: nat)
    ensures Pitch(w, FileDepth(depth)) == ScanlineBytes(w, depth)
    ensures RowSize(w, depth) <= ScanlineBytes(w, depth)
  {
    if depth == 4 {
      NibblePitch(w);
    } else if depth == 8 {
      OctetPitch(w);
    } else {
      OctetPitch(3 * w);
    }
  }

  function Colours(depth: nat): nat {
    if depth == 4 then 16 else if depth == 8 then 256 else 0
  }

  function OffBits(depth: nat): nat {
    SIZEOF_BMFH + SIZEOF_BMIH + 4 * Colours(depth)
  }

  function ImageSize(w: nat, h: nat, depth: nat): nat {
    h * ScanlineBytes(w, depth)
  }

  function FileSize(w: nat, h: nat, depth: nat): nat {
    OffBits(depth) + ImageSize(w, h, depth)
  }

  // ---------- a file as the writes that make it ----------

  /** One write: `count` items of `size` octets. */
  datatype Chunk = Chunk(data: seq<byte>, size: nat, count: nat)

  ghost predicate IsChunk(c: Chunk) {
    c.count * c.size == |c.data|
  }

  function W(v: nat): (c: Chunk)
    ensures IsChunk(c) && |c.data| == 2
  {
    Chunk(Le2(v), 2, 1)
  }

  function L(v: nat): (c: Chunk)
    ensures IsChunk(c) && |c.data| == 4
  {
    Chunk(Le4(v), 4, 1)
  }

  function B(data: seq<byte>): (c: Chunk)
    ensures IsChunk(c) && c.data == data
  {
    Chunk(data, 1, |data|)
  }

  ghost predicate AreChunks(cs: seq<Chunk>) {
    forall i :: 0 <= i < |cs| ==> IsChunk(cs[i])
  }

  /** The tape after the writes, each cut to whole items if the room runs out. */
  ghost function WriteAll(t: Tape, cs: seq<Chunk>): (r: Tape)
    requires t.Valid() && AreChunks(cs)
    ensures r.Valid()
  {
    if cs == [] then t
    else
      var last := cs[|cs| - 1];
      Write(WriteAll(t, cs[..|cs| - 1]), last.data, last.size, last.count)
  }

  function Flatten(cs: seq<Chunk>): seq<byte> {
    if cs == [] then [] else Flatten(cs[..|cs| - 1]) + cs[|cs| - 1].data
  }

  lemma WriteOneMore(t: Tape, cs: seq<Chunk>, c: Chunk)
    requires t.Valid() && AreChunks(cs) && IsChunk(c)
    ensures WriteAll(t, cs + [c]) == Write(WriteAll(t, cs), c.data, c.size, c.count)
    ensures Flatten(cs + [c]) == Flatten(cs) + c.data
  {
    assert (cs + [c])[..|cs|] == cs;
  }

  lemma {:induction false} FlattenConcat(a: seq<Chunk>, b: seq<Chunk>)
    ensures Flatten(a + b) == Flatten(a) + Flatten(b)
  {
    if b == [] {
      assert a + b == a && Flatten(a) + [] == Flatten(a);
    } else {
      var init := b[..|b| - 1];
      FlattenConcat(a, init);
      assert (a + b)[..|a + b| - 1] == a + init;
      ConcatAssoc(Flatten(a), Flatten(init), b[|b| - 1].data);
    }
  }

  lemma PutPut(t: Tape, a: seq<byte>, b: seq<byte>)
    requires t.Valid() && |a| + |b| <= t.Room()
    ensures Put(Put(t, a), b) == Put(t, a + b)
  {
    var p, k := t.pos, t.pos + |a|;
    var s := Put(t, a);
    assert s.bytes[..k] == t.bytes[..p] + a;
    assert s.bytes[k + |b|..] == t.bytes[k + |b|..];
    assert (t.bytes[..p] + a) + b == t.bytes[..p] + (a + b);
  }

  /** With room for all of it, the writes put down the whole file. */
  lemma {:induction false} WritesThatFit(t: Tape, cs: seq<Chunk>)
    requires t.Valid() && AreChunks(cs) && |Flatten(cs)| <= t.Room()
    ensures WriteAll(t, cs) == Put(t, Flatten(cs))
  {
    if cs != [] {
      var init, last := cs[..|cs| - 1], cs[|cs| - 1];
      WritesThatFit(t, init);
      var s := Put(t, Flatten(init));
      assert Moved(s.Room(), last.size, last.count) == |last.data|;
      assert last.data[..|last.data|] == last.data;
      PutPut(t, Flatten(init), last.data);
    } else {
      assert Put(t, []) == t;
    }
  }

  // ---------- header and palette ----------

  function FileHeaderChunks(w: nat, h: nat, depth: nat): (cs: seq<Chunk>)
    ensures AreChunks(cs)
  {
    [W(MAGIC), L(FileSize(w, h, depth)), W(0), W(0), L(OffBits(depth))]
  }

  function DimensionChunks(w: nat, h: nat, depth: nat): (cs: seq<Chunk>)
    ensures AreChunks(cs)
  {
    [L(WININFOHEADERSIZE), L(w), L(h), W(1), W(FileDepth(depth))]
  }

  function ContentChunks(w: nat, h: nat, depth: nat): (cs: seq<Chunk>)
    ensures AreChunks(cs)
  {
    [L(BI_RGB), L(ImageSize(w, h, depth)), L(0), L(0), L(Colours(depth)), L(Colours(depth))]
  }

  function HeaderChunks(w: nat, h: nat, depth: nat): (cs: seq<Chunk>)
    ensures AreChunks(cs)
  {
    FileHeaderChunks(w, h, depth) + DimensionChunks(w, h, depth) + ContentChunks(w, h, depth)
  }

  function HeaderBytes(w: nat, h: nat, depth: nat): (s: seq<byte>)
    ensures |s| == 54
  {
    (Le2(MAGIC) + Le4(FileSize(w, h, depth)) + Le2(0) + Le2(0) + Le4(OffBits(depth)))
    + (Le4(WININFOHEADERSIZE) + Le4(w) + Le4(h) + Le2(1) + Le2(FileDepth(depth)))
    + (Le4(BI_RGB) + Le4(ImageSize(w, h, depth)) + Le4(0) + Le4(0) + Le4(Colours(depth)) + Le4(Colours(depth)))
  }

  /** A palette entry with its reserved octet, whose value is arbitrary. */
  function Quad(c: Rgb, reserved: byte): (s: seq<byte>)
    ensures |s| == 4
  {
    [c.b, c.g, c.r, reserved]
  }

  function PaletteChunks(pal: seq<Rgb>, reserved: seq<byte>, n: nat): (cs: seq<Chunk>)
    requires n <= |pal| && n <= |reserved|
    ensures |cs| == n && AreChunks(cs)
  {
    if n == 0 then [] else PaletteChunks(pal, reserved, n - 1) + [B(Quad(pal[n - 1], reserved[n - 1]))]
  }

  // ---------- rows ----------

  function Zeros(n: nat): (s: seq<byte>)
    ensures |s| == n
  {
    seq(n, _ => 0)
  }

  /** The pixel of `n` octets at `i`. */
  function PixelAt(s: seq<byte>, i: nat, n: nat): nat
    requires 1 <= n <= 4 && i + n <= |s|
  {
    var b0: int := s[i];
    var b1: int := if n > 1 then s[i + 1] else 0;
    var b2: int := if n > 2 then s[i + 2] else 0;
    var b3: int := if n > 3 then s[i + 3] else 0;
    b0 + 0x100 * b1 + 0x1_0000 * b2 + 0x100_0000 * b3
  }

  /** `pixel2rgb`; an unknown depth leaves the colour as it was. */
  function Pixel2Rgb(p: nat, before: Rgb, depth: nat): Rgb {
    if depth == 24 || depth == 32 then
      Rgb(p / 0x1_0000 % 256, p / 256 % 256, p % 256)
    else if depth == 15 then
      Rgb(OrByte(p / 1024 % 32 * 8, 7), OrByte(p / 32 % 32 * 8, 7), OrByte(p % 32 * 8, 7))
    else if depth == 16 then
      Rgb(OrByte(p / 2048 % 32 * 8, 7), OrByte(p / 32 % 64 * 4, 3), OrByte(p % 32 * 8, 7))
    else before
  }

  function Depth2Bpp(depth: nat): (n: nat)
    ensures 1 <= n <= 4
  {
    if depth == 15 || depth == 16 then 2 else if depth == 24 then 3 else if depth == 32 then 4 else 1
  }

  const BLACK := Rgb(0, 0, 0)

  /** The colour of the `i`-th pixel of a row of wide pixels. */
  function ColourAt(row: seq<byte>, i: nat, depth: nat): Rgb
    requires i * Depth2Bpp(depth) + Depth2Bpp(depth) <= |row|
  {
    Pixel2Rgb(PixelAt(row, i * Depth2Bpp(depth), Depth2Bpp(depth)), BLACK, depth)
  }

  /** How much memory a row of the bitmap takes. */
  function RowNeeds(w: nat, depth: nat): nat {
    if depth == 15 || depth == 16 then 2 * w else if depth == 24 then 3 * w else if depth == 32 then 4 * w else w
  }

  lemma NeedsAllPixels(w: nat, depth: nat)
    ensures RowNeeds(w, depth) == w * Depth2Bpp(depth)
  {}

  /** The first `n` pixels of a row in the file's form. */
  function RowPixels(row: seq<byte>, n: nat, depth: nat): (s: seq<byte>)
    requires RowNeeds(n, depth) <= |row|
    ensures |s| == RowSize(n, depth)
    decreases n
  {
    if depth == 4 then Rle4.PackRow(Rle4.LowNibbles(row[..n]))
    else if depth == 8 then row[..n]
    else if n == 0 then []
    else
      NeedsLess(n, depth);
      var c := ColourAt(row, n - 1, depth);
      RowPixels(row, n - 1, depth) + [c.b, c.g, c.r]
  }

  lemma NeedsLess(n: nat, depth: nat)
    requires 0 < n
    ensures RowNeeds(n - 1, depth) == (n - 1) * Depth2Bpp(depth)
    ensures RowNeeds(n - 1, depth) + Depth2Bpp(depth) == RowNeeds(n, depth)
  {
    hide Depth2Bpp, RowNeeds;
    NeedsAllPixels(n, depth);
    NeedsAllPixels(n - 1, depth);
    MulStep(n, Depth2Bpp(depth));
  }

  /** A whole row of the file, padded with zeros. */
  function FileRow(row: seq<byte>, w: nat, depth: nat): (s: seq<byte>)
    requires RowNeeds(w, depth) <= |row|
    ensures |s| == ScanlineBytes(w, depth)
  {
    RowPixels(row, w, depth) + Zeros(ScanlineBytes(w, depth) - RowSize(w, depth))
  }

  ghost predicate HasRow(m: seq<byte>, i: nat, pitch: nat, need: nat) {
    i * pitch + need <= |m|
  }

  ghost predicate Readable(m: seq<byte>, w: nat, h: nat, pitch: nat, depth: nat) {
    forall i :: 0 <= i < h ==> HasRow(m, i, pitch, RowNeeds(w, depth))
  }

  /** Every row of a bitmap that fits its pitch and its memory can be saved. */
  lemma WholeImageReadable(m: seq<byte>, w: nat, h: nat, pitch: nat, depth: nat)
    requires h * pitch <= |m| && RowNeeds(w, depth) <= pitch
    ensures Readable(m, w, h, pitch, depth)
  {
    hide RowNeeds;
    forall i | 0 <= i < h ensures HasRow(m, i, pitch, RowNeeds(w, depth)) {
      MulMonotone(pitch, i + 1, h);
      MulStep(i + 1, pitch);
    }
  }

  /** In particular the saver stays inside a loaded bitmap, except that one of 4 bits is
      packed two pixels to an octet, while the saver takes one to an octet. */
  lemma LoadedIsReadableIff(m: seq<byte>, w: nat, h: nat, depth: nat)
    requires |m| == h * ScanlineBytes(w, depth)
    ensures Readable(m, w, h, ScanlineBytes(w, depth), FileDepth(depth)) <==> depth != 4 || h == 0 || w <= 4
  {
    hide Readable;
    var p, need := ScanlineBytes(w, depth), RowNeeds(w, FileDepth(depth));
    PitchIsScanlineBytes(w, depth);
    assert need <= p <==> depth != 4 || w <= 4;
    if need <= p {
      WholeImageReadable(m, w, h, p, FileDepth(depth));
    } else if h != 0 {
      LastRowMissing(m, w, h, p, FileDepth(depth));
    } else {
      NoRowsReadable(m, w, p, FileDepth(depth));
    }
  }

  lemma LastRowMissing(m: seq<byte>, w: nat, h: nat, pitch: nat, depth: nat)
    requires 0 < h && |m| == h * pitch && pitch < RowNeeds(w, depth)
    ensures !Readable(m, w, h, pitch, depth)
  {
    hide RowNeeds;
    MulStep(h, pitch);
    assert !HasRow(m, h - 1, pitch, RowNeeds(w, depth));
  }

  lemma NoRowsReadable(m: seq<byte>, w: nat, pitch: nat, depth: nat)
    ensures Readable(m, w, 0, pitch, depth)
  {}

  /** The `i`-th row of the bitmap in the file's form. */
  function RowOf(m: seq<byte>, w: nat, pitch: nat, depth: nat, i: nat): (s: seq<byte>)
    requires HasRow(m, i, pitch, RowNeeds(w, depth))
    ensures |s| == ScanlineBytes(w, depth)
  {
    FileRow(m[i * pitch..], w, depth)
  }

  /** The first `n` rows written: the bottom row comes first. */
  function RowChunks(m: seq<byte>, w: nat, h: nat, pitch: nat, depth: nat, n: nat): (cs: seq<Chunk>)
    requires Readable(m, w, h, pitch, depth) && n <= h
    ensures |cs| == n && AreChunks(cs)
  {
    if n == 0 then []
    else
      assert HasRow(m, h - n, pitch, RowNeeds(w, depth));
      RowChunks(m, w, h, pitch, depth, n - 1) + [B(RowOf(m, w, pitch, depth, h - n))]
  }

  function FileChunks(m: seq<byte>, w: nat, h: nat, pitch: nat, depth: nat, pal: seq<Rgb>, reserved: seq<byte>): (cs: seq<Chunk>)
    requires Readable(m, w, h, pitch, depth) && Colours(depth) <= |pal| && Colours(depth) <= |reserved|
    ensures AreChunks(cs)
  {
    HeaderChunks(w, h, depth) + PaletteChunks(pal, reserved, Colours(depth)) + RowChunks(m, w, h, pitch, depth, h)
  }
}
