/** `__mg_save_bmp`. */
module BmpSave {
  import opened Bytes
  import opened MemStream
  import opened BmpFormat
  import Rle4

  /** One `MGUI_RWwrite`; its result is ignored. */
  method Emit(f: MemRW, data: seq<byte>, size: nat, count: nat, ghost t: Tape, ghost done: seq<Chunk>)
    returns (ghost more: seq<Chunk>)
    requires f.Valid() && t.Valid() && AreChunks(done) && count * size == |data|
    requires f.View() == WriteAll(t, done)
    modifies f`here, f.mem
    ensures f.Valid() && more == done + [Chunk(data, size, count)] && AreChunks(more)
    ensures f.View() == WriteAll(t, more)
  {
    var num := f.WriteFrom(data, size, count);
    more := done + [Chunk(data, size, count)];
    WriteOneMore(t, done, Chunk(data, size, count));
  }

  method EmitW(f: MemRW, v: nat, ghost t: Tape, ghost done: seq<Chunk>) returns (ghost more: seq<Chunk>)
    requires f.Valid() && t.Valid() && AreChunks(done) && f.View() == WriteAll(t, done)
    modifies f`here, f.mem
    ensures f.Valid() && more == done + [W(v)] && AreChunks(more) && f.View() == WriteAll(t, more)
  {
    more := Emit(f, Le2(v), 2, 1, t, done);
  }

  method EmitL(f: MemRW, v: nat, ghost t: Tape, ghost done: seq<Chunk>) returns (ghost more: seq<Chunk>)
    requires f.Valid() && t.Valid() && AreChunks(done) && f.View() == WriteAll(t, done)
    modifies f`here, f.mem
    ensures f.Valid() && more == done + [L(v)] && AreChunks(more) && f.View() == WriteAll(t, more)
  {
    more := Emit(f, Le4(v), 4, 1, t, done);
  }

  method WriteFileHeader(f: MemRW, w: nat, h: nat, depth: nat, ghost t: Tape) returns (ghost cs: seq<Chunk>)
    requires f.Valid() && f.View() == t
    modifies f`here, f.mem
    ensures f.Valid() && cs == FileHeaderChunks(w, h, depth) && AreChunks(cs) && f.View() == WriteAll(t, cs)
  {
    hide WriteAll, Le2, Le4, W, L, FileSize, OffBits;
    NothingWritten(t);
    cs := EmitW(f, MAGIC, t, []);
    cs := EmitL(f, FileSize(w, h, depth), t, cs);
    cs := EmitW(f, 0, t, cs);
    cs := EmitW(f, 0, t, cs);
    cs := EmitL(f, OffBits(depth), t, cs);
  }

  method WriteDimensions(f: MemRW, w: nat, h: nat, depth: nat, ghost t: Tape, ghost done: seq<Chunk>)
    returns (ghost cs: seq<Chunk>)
    requires f.Valid() && t.Valid() && AreChunks(done) && f.View() == WriteAll(t, done)
    modifies f`here, f.mem
    ensures f.Valid() && cs == done + DimensionChunks(w, h, depth) && AreChunks(cs) && f.View() == WriteAll(t, cs)
  {
    hide WriteAll, Le2, Le4, W, L, FileDepth;
    cs := EmitL(f, WININFOHEADERSIZE, t, done);
    cs := EmitL(f, w, t, cs);
    cs := EmitL(f, h, t, cs);
    cs := EmitW(f, 1, t, cs);
    cs := EmitW(f, FileDepth(depth), t, cs);
  }

  method WriteContentInfo(f: MemRW, w: nat, h: nat, depth: nat, ghost t: Tape, ghost done: seq<Chunk>)
    returns (ghost cs: seq<Chunk>)
    requires f.Valid() && t.Valid() && AreChunks(done) && f.View() == WriteAll(t, done)
    modifies f`here, f.mem
    ensures f.Valid() && cs == done + ContentChunks(w, h, depth) && AreChunks(cs) && f.View() == WriteAll(t, cs)
  {
    hide WriteAll, Le2, Le4, W, L, ImageSize, Colours;
    cs := EmitL(f, BI_RGB, t, done);
    cs := EmitL(f, ImageSize(w, h, depth), t, cs);
    cs := EmitL(f, 0, t, cs);
    cs := EmitL(f, 0, t, cs);
    cs := EmitL(f, Colours(depth), t, cs);
    cs := EmitL(f, Colours(depth), t, cs);
  }

  /** The fourteen octets of the file header and the forty of the info header. */
  method WriteHeaders(f: MemRW, w: nat, h: nat, depth: nat, ghost t: Tape) returns (ghost cs: seq<Chunk>)
    requires f.Valid() && f.View() == t
    modifies f`here, f.mem
    ensures f.Valid() && cs == HeaderChunks(w, h, depth) && f.View() == WriteAll(t, cs)
  {
    hide WriteAll, FileHeaderChunks, DimensionChunks, ContentChunks;
    cs := WriteFileHeader(f, w, h, depth, t);
    cs := WriteDimensions(f, w, h, depth, t, cs);
    cs := WriteContentInfo(f, w, h, depth, t, cs);
  }

  lemma NothingWritten(t: Tape)
    requires t.Valid()
    ensures WriteAll(t, []) == t
  {}

  method WritePalette(f: MemRW, pal: array<Rgb>, n: nat, reserved: seq<byte>, ghost t: Tape, ghost done: seq<Chunk>)
    returns (ghost cs: seq<Chunk>)
    requires f.Valid() && t.Valid() && AreChunks(done) && f.View() == WriteAll(t, done)
    requires n <= pal.Length && n <= |reserved|
    modifies f`here, f.mem
    ensures f.Valid() && cs == done + PaletteChunks(pal[..], reserved, n) && AreChunks(cs)
    ensures f.View() == WriteAll(t, cs)
  {
    hide WriteAll, Quad;
    cs := done;
    for i := 0 to n
      invariant f.Valid() && cs == done + PaletteChunks(pal[..], reserved, i) && AreChunks(cs)
      invariant f.View() == WriteAll(t, cs)
    {
      cs := Emit(f, Quad(pal[i], reserved[i]), 1, 4, t, cs);
    }
  }

  lemma OneMorePixel(row: seq<byte>, i: nat, depth: nat, c: Rgb)
    requires depth != 4 && depth != 8 && RowNeeds(i + 1, depth) <= |row|
    requires i * Depth2Bpp(depth) + Depth2Bpp(depth) <= |row| && c == ColourAt(row, i, depth)
    ensures RowNeeds(i, depth) <= |row|
    ensures RowPixels(row, i + 1, depth) == RowPixels(row, i, depth) + [c.b, c.g, c.r]
  {
    hide ColourAt;
    NeedsLess(i + 1, depth);
  }

  /** The octet at `j`, which may be one of the first ones behind the bitmap. */
  function OctetOf(m: seq<byte>, beyond: seq<byte>, j: nat): byte
    requires j < |m| + |beyond|
  {
    if j < |m| then m[j] else beyond[j - |m|]
  }

  /** The wide read of one pixel: always four octets, whatever the depth. */
  method ReadPixel(bits: array<byte>, beyond: seq<byte>, off: nat, k: nat) returns (p: nat)
    requires off + k < bits.Length && |beyond| == 3
    ensures p == PixelAt(bits[off..] + beyond, k, 4)
  {
    var b0: int := bits[off + k];
    var b1: int := OctetOf(bits[..], beyond, off + k + 1);
    var b2: int := OctetOf(bits[..], beyond, off + k + 2);
    var b3: int := OctetOf(bits[..], beyond, off + k + 3);
    p := b0 + 0x100 * b1 + 0x1_0000 * b2 + 0x100_0000 * b3;
  }

  lemma PixelInRow(row: seq<byte>, i: nat, n: nat, depth: nat)
    requires i < n && RowNeeds(n, depth) <= |row|
    ensures RowNeeds(i + 1, depth) <= |row|
    ensures i * Depth2Bpp(depth) + Depth2Bpp(depth) <= |row|
    ensures (i + 1) * Depth2Bpp(depth) == i * Depth2Bpp(depth) + Depth2Bpp(depth)
  {
    hide Depth2Bpp, RowNeeds;
    NeedsAllPixels(n, depth);
    NeedsAllPixels(i + 1, depth);
    MulStep(i + 1, Depth2Bpp(depth));
    MulMonotone(Depth2Bpp(depth), i + 1, n);
  }

  ghost predicate Known(depth: nat) {
    depth == 15 || depth == 16 || depth == 24 || depth == 32
  }

  /** A field of a pixel does not depend on a multiple of a number above it. */
  lemma FieldBelow(q: nat, high: nat, a: nat, g: nat, d: nat)
    requires 0 < a && 0 < g
    ensures (q + a * (g * (d * high))) / a % g == q / a % g
  {
    var x, r := q / a, q % a;
    assert q + a * (g * (d * high)) == a * (x + g * (d * high)) + r by {
      Distribute(a, x, g * (d * high));
    }
    ModUnique(q + a * (g * (d * high)), a, x + g * (d * high), r);
    Distribute(g, x / g, d * high);
    ModUnique(x + g * (d * high), g, x / g + d * high, x % g);
  }

  lemma LowWordColour(q: nat, high: nat, before: Rgb, depth: nat)
    requires depth == 15 || depth == 16
    ensures Pixel2Rgb(q + 0x1_0000 * high, before, depth) == Pixel2Rgb(q, before, depth)
  {
    hide OrByte;
    FieldBelow(q, high, 1, 32, 2048);
    FieldBelow(q, high, 32, 32, 64);
    FieldBelow(q, high, 32, 64, 32);
    FieldBelow(q, high, 1024, 32, 2);
    FieldBelow(q, high, 2048, 32, 1);
  }

  lemma LowOctetsColour(q: nat, high: nat, before: Rgb)
    ensures Pixel2Rgb(q + 0x100_0000 * high, before, 24) == Pixel2Rgb(q, before, 24)
  {
    hide OrByte;
    FieldBelow(q, high, 1, 256, 0x1_0000);
    FieldBelow(q, high, 256, 256, 256);
    FieldBelow(q, high, 0x1_0000, 256, 1);
  }

  /** The octets of a wide read that do not belong to the pixel are above those that
      carry the colour. */
  lemma WidePixel(s: seq<byte>, k: nat, before: Rgb, depth: nat)
    requires k + 4 <= |s|
    ensures Pixel2Rgb(PixelAt(s, k, 4), before, depth) == Pixel2Rgb(PixelAt(s, k, Depth2Bpp(depth)), before, depth)
  {
    var b2: int, b3: int := s[k + 2], s[k + 3];
    if depth == 24 {
      LowOctetsColour(PixelAt(s, k, 3), b3, before);
    } else if depth == 15 || depth == 16 {
      LowWordColour(PixelAt(s, k, 2), b2 + 0x100 * b3, before, depth);
    }
  }

  /** The colour carried over from pixel to pixel only matters for an unknown depth,
      where it stays black. What lies behind the row does not matter. */
  lemma ColourCarried(row: seq<byte>, beyond: seq<byte>, i: nat, depth: nat, color: Rgb)
    requires i * Depth2Bpp(depth) + Depth2Bpp(depth) <= |row| && |beyond| == 3 && (Known(depth) || color == BLACK)
    ensures var c := Pixel2Rgb(PixelAt(row + beyond, i * Depth2Bpp(depth), 4), color, depth);
            c == ColourAt(row, i, depth) && (Known(depth) || c == BLACK)
  {
    hide OrByte;
    var k, n := i * Depth2Bpp(depth), Depth2Bpp(depth);
    WidePixel(row + beyond, k, color, depth);
    assert PixelAt(row + beyond, k, n) == PixelAt(row, k, n);
  }

  method StoreTriple(scanline: array<byte>, dst: nat, c: Rgb)
    requires dst + 3 <= scanline.Length
    modifies scanline
    ensures scanline[..] == old(scanline[..dst]) + [c.b, c.g, c.r] + old(scanline[dst + 3..])
  {
    scanline[dst], scanline[dst + 1], scanline[dst + 2] := c.b, c.g, c.r;
  }

  /** Overwriting what follows a prefix extends the prefix. */
  lemma Extend(p: seq<byte>, tail: seq<byte>, x: seq<byte>)
    requires |p| + |x| <= |tail|
    ensures var s := p + tail[|p|..];
            s[..|p|] + x + s[|p| + |x|..] == (p + x) + tail[|p| + |x|..]
  {
    var s := p + tail[|p|..];
    assert s[..|p|] == p && s[|p| + |x|..] == tail[|p| + |x|..];
  }

  /** `beyond` is what lies behind the bitmap: the last wide reads may reach it. The
      result does not depend on it. */
  method GetHighCScanline(bits: array<byte>, beyond: seq<byte>, off: nat, scanline: array<byte>, pixels: nat, depth: nat)
    requires bits != scanline && depth != 4 && depth != 8
    requires off + RowNeeds(pixels, depth) <= bits.Length && |beyond| == 3 && pixels * 3 <= scanline.Length
    modifies scanline
    ensures scanline[..] == RowPixels(bits[off..], pixels, depth) + old(scanline[pixels * 3..])
  {
    hide RowPixels, PixelAt, ColourAt, Pixel2Rgb, Depth2Bpp, RowNeeds;
    ghost var row, tail := bits[off..], scanline[..];
    var color, bpp, src, dst := BLACK, Depth2Bpp(depth), 0, 0;
    NoPixels(row, depth);
    for i := 0 to pixels
      invariant src == i * bpp && dst == 3 * i && RowNeeds(i, depth) <= |row|
      invariant Known(depth) || color == BLACK
      invariant scanline[..] == RowPixels(row, i, depth) + tail[dst..] && bits[off..] == row
    {
      PixelInRow(row, i, pixels, depth);
      BppPositive(depth);
      var c := ReadPixel(bits, beyond, off, src);
      ColourCarried(row, beyond, i, depth, color);
      color := Pixel2Rgb(c, color, depth);
      OneMorePixel(row, i, depth, color);
      Extend(RowPixels(row, i, depth), tail, [color.b, color.g, color.r]);
      StoreTriple(scanline, dst, color);
      src, dst := src + bpp, dst + 3;
    }
  }

  lemma BppPositive(depth: nat)
    ensures 1 <= Depth2Bpp(depth) <= 4
  {}

  lemma NoPixels(row: seq<byte>, depth: nat)
    requires depth != 4 && depth != 8
    ensures RowNeeds(0, depth) == 0 && RowPixels(row, 0, depth) == []
  {}

  /** Packs one row into the reused buffer, whose padding stays zero. */
  method GetScanline(bits: array<byte>, beyond: seq<byte>, off: nat, scanline: array<byte>, w: nat, depth: nat)
    requires bits != scanline && off + RowNeeds(w, depth) <= bits.Length && |beyond| == 3
    requires scanline.Length == ScanlineBytes(w, depth)
    requires scanline[RowSize(w, depth)..] == Zeros(ScanlineBytes(w, depth) - RowSize(w, depth))
    modifies scanline
    ensures scanline[..] == FileRow(bits[off..], w, depth)
  {
    PitchIsScanlineBytes(w, depth);
    if depth == 4 {
      Rle4.Get16CScanline(bits, off, scanline, w);
      assert bits[off..][..w] == bits[off..off + w];
    } else if depth == 8 {
      ghost var tail := scanline[w..];
      forall i | 0 <= i < w {
        scanline[i] := bits[off + i];
      }
      assert scanline[..] == bits[off..][..w] + tail;
    } else {
      GetHighCScanline(bits, beyond, off, scanline, w, depth);
    }
  }

  /** `beyond` are the octets behind the bitmap and `reserved` those that the palette
      entries are padded with; both are arbitrary. */
  method SaveBmp(f: MemRW, bmp: MyBitmap, beyond: seq<byte>, pal: array<Rgb>, reserved: seq<byte>)
    requires f.Valid() && bmp.bits != f.mem && |beyond| == 3
    requires Readable(bmp.bits[..], bmp.w, bmp.h, bmp.pitch, bmp.depth)
    requires Colours(bmp.depth) <= pal.Length && Colours(bmp.depth) <= |reserved|
    modifies f`here, f.mem
    ensures f.Valid()
    ensures f.View() == WriteAll(old(f.View()),
              FileChunks(bmp.bits[..], bmp.w, bmp.h, bmp.pitch, bmp.depth, pal[..], reserved))
  {
    hide WriteAll, HeaderChunks, PaletteChunks, RowChunks, Colours;
    ghost var t := f.View();
    ghost var cs := WriteHeaders(f, bmp.w, bmp.h, bmp.depth, t);
    cs := WritePalette(f, pal, Colours(bmp.depth), reserved, t, cs);
    cs := WriteRows(f, bmp.bits, beyond, bmp.w, bmp.h, bmp.pitch, bmp.depth, t, cs);
  }

  ghost predicate Padded(scanline: seq<byte>, w: nat, depth: nat) {
    |scanline| == ScanlineBytes(w, depth) && RowSize(w, depth) <= |scanline| &&
    scanline[RowSize(w, depth)..] == Zeros(|scanline| - RowSize(w, depth))
  }

  method WriteRow(f: MemRW, bits: array<byte>, beyond: seq<byte>, scanline: array<byte>, i: nat, w: nat, pitch: nat, depth: nat,
                  ghost t: Tape, ghost done: seq<Chunk>) returns (ghost cs: seq<Chunk>)
    requires f.Valid() && t.Valid() && AreChunks(done) && f.View() == WriteAll(t, done)
    requires bits != f.mem && scanline != f.mem && bits != scanline && |beyond| == 3
    requires HasRow(bits[..], i, pitch, RowNeeds(w, depth)) && Padded(scanline[..], w, depth)
    modifies f`here, f.mem, scanline
    ensures f.Valid() && cs == done + [B(RowOf(bits[..], w, pitch, depth, i))] && AreChunks(cs)
    ensures f.View() == WriteAll(t, cs) && Padded(scanline[..], w, depth)
  {
    hide WriteAll, FileRow, RowNeeds, ScanlineBytes, RowSize, RowPixels;
    assert scanline[RowSize(w, depth)..] == scanline[..][RowSize(w, depth)..];
    GetScanline(bits, beyond, i * pitch, scanline, w, depth);
    assert bits[..][i * pitch..] == bits[i * pitch..];
    PaddingStays(bits[i * pitch..], w, depth);
    cs := Emit(f, scanline[..], 1, ScanlineBytes(w, depth), t, done);
  }

  lemma NextRowChunk(m: seq<byte>, w: nat, h: nat, pitch: nat, depth: nat, i: nat)
    requires Readable(m, w, h, pitch, depth) && i < h
    ensures HasRow(m, i, pitch, RowNeeds(w, depth))
    ensures RowChunks(m, w, h, pitch, depth, h - i)
         == RowChunks(m, w, h, pitch, depth, h - 1 - i) + [B(RowOf(m, w, pitch, depth, i))]
  {
    hide RowOf;
    assert HasRow(m, i, pitch, RowNeeds(w, depth));
  }

  /** The rows, from the bottom one up, through one scan line buffer. */
  method WriteRows(f: MemRW, bits: array<byte>, beyond: seq<byte>, w: nat, h: nat, pitch: nat, depth: nat, ghost t: Tape, ghost done: seq<Chunk>)
    returns (ghost cs: seq<Chunk>)
    requires f.Valid() && t.Valid() && AreChunks(done) && f.View() == WriteAll(t, done)
    requires bits != f.mem && |beyond| == 3 && Readable(bits[..], w, h, pitch, depth)
    modifies f`here, f.mem
    ensures f.Valid() && cs == done + RowChunks(bits[..], w, h, pitch, depth, h) && AreChunks(cs)
    ensures f.View() == WriteAll(t, cs)
  {
    hide WriteAll, RowOf, RowNeeds, ScanlineBytes, RowSize, HasRow;
    ghost var m := bits[..];
    PitchIsScanlineBytes(w, depth);
    var scanline := new byte[ScanlineBytes(w, depth)](_ => 0);
    cs := done;
    var i := h - 1;
    while i >= 0
      invariant -1 <= i < h && f.Valid() && AreChunks(cs) && f.View() == WriteAll(t, cs) && bits[..] == m
      invariant cs == done + RowChunks(m, w, h, pitch, depth, h - 1 - i)
      invariant Padded(scanline[..], w, depth)
    {
      NextRowChunk(m, w, h, pitch, depth, i);
      cs := WriteRow(f, bits, beyond, scanline, i, w, pitch, depth, t, cs);
      i := i - 1;
    }
  }

  lemma PaddingStays(row: seq<byte>, w: nat, depth: nat)
    requires RowNeeds(w, depth) <= |row|
    ensures RowSize(w, depth) <= ScanlineBytes(w, depth)
    ensures FileRow(row, w, depth)[RowSize(w, depth)..] == Zeros(ScanlineBytes(w, depth) - RowSize(w, depth))
  {}

  // ---------- reads behind the bitmap ----------

  /** The wide read of the `x`-th pixel of row `i` leaves a bitmap of `size` octets. */
  predicate ReadLeaves(i: nat, x: nat, pitch: nat, depth: nat, size: nat) {
    i * pitch + x * Depth2Bpp(depth) + 4 > size
  }

  ghost predicate ReadsBeyond(w: nat, h: nat, pitch: nat, depth: nat, size: nat) {
    depth != 4 && depth != 8 && exists i, x :: 0 <= i < h && 0 <= x < w && ReadLeaves(i, x, pitch, depth, size)
  }

  /** A bitmap of exactly `h * pitch` octets is left by a wide read exactly if the last
      pixel of a row is less than four octets from the end of the row. */
  lemma ReadsBeyondIff(w: nat, h: nat, pitch: nat, depth: nat)
    ensures ReadsBeyond(w, h, pitch, depth, h * pitch)
       <==> depth != 4 && depth != 8 && 0 < w && 0 < h && (w - 1) * Depth2Bpp(depth) + 4 > pitch
  {
    hide Depth2Bpp;
    var bpp := Depth2Bpp(depth);
    if 0 < w && 0 < h && (w - 1) * bpp + 4 > pitch {
      MulStep(h, pitch);
      assert ReadLeaves(h - 1, w - 1, pitch, depth, h * pitch);
    }
    forall i, x | 0 <= i < h && 0 <= x < w && ReadLeaves(i, x, pitch, depth, h * pitch)
      ensures (w - 1) * bpp + 4 > pitch
    {
      MulMonotone(bpp, x, w - 1);
      MulMonotone(pitch, i + 1, h);
      MulStep(i + 1, pitch);
    }
  }

  /** For instance a single row of four 24-bit pixels without padding. */
  lemma FourPixelsReadBeyond()
    ensures ReadsBeyond(4, 1, 12, 24, 12)
  {
    assert ReadLeaves(0, 3, 12, 24, 12);
  }
}
