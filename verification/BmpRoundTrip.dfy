/** What is saved is what is loaded back. */
module BmpRoundTrip {
  import opened Bytes
  import opened MemStream
  import opened Reader
  import opened BmpFormat
  import opened BmpSave
  import opened BmpLoad

  const DWORD := 0x1_0000_0000

  // ---------- the headers ----------

  lemma Le2Value(s: seq<byte>, k: nat, v: nat, t: Tape)
    requires t.Valid() && k + 2 <= |s| && s[k..k + 2] == Le2(v) && v < 0x1_0000
    requires OctetAt(t, k) == s[k] && OctetAt(t, k + 1) == s[k + 1]
    ensures WordAt(t, k) == v
  {
    assert s[k] == s[k..k + 2][0] && s[k + 1] == s[k..k + 2][1];
  }

  lemma Le4Digits(v: nat)
    requires v < DWORD
    ensures v == v % 256 + 0x100 * (v / 0x100 % 256) + 0x1_0000 * (v / 0x1_0000 % 256) + 0x100_0000 * (v / 0x100_0000 % 256)
  {
    var a, b, c := v / 0x100, v / 0x1_0000, v / 0x100_0000;
    ModUnique(v, 0x1_0000, a / 0x100, v % 256 + 0x100 * (a % 0x100));
    ModUnique(v, 0x100_0000, b / 0x100, v % 0x1_0000 + 0x1_0000 * (b % 0x100));
  }

  lemma Le4Value(s: seq<byte>, k: nat, v: nat, t: Tape)
    requires t.Valid() && k + 4 <= |s| && s[k..k + 4] == Le4(v) && v < DWORD
    requires forall i :: k <= i < k + 4 ==> OctetAt(t, i) == s[i]
    ensures DwordAt(t, k) == v
  {
    hide OctetAt;
    Le4Digits(v);
    assert s[k] == s[k..k + 4][0] && s[k + 1] == s[k..k + 4][1];
    assert s[k + 2] == s[k..k + 4][2] && s[k + 3] == s[k..k + 4][3];
  }

  lemma HeaderFields(w: nat, h: nat, depth: nat)
    ensures var s := HeaderBytes(w, h, depth);
            && s[0..2] == Le2(MAGIC) && s[2..6] == Le4(FileSize(w, h, depth)) && s[10..14] == Le4(OffBits(depth))
            && s[14..18] == Le4(WININFOHEADERSIZE) && s[18..22] == Le4(w) && s[22..26] == Le4(h)
            && s[28..30] == Le2(FileDepth(depth)) && s[30..34] == Le4(BI_RGB)
  {
    hide Le2, Le4;
  }

  /** Reading the headers of a saved file. The palette starts right behind them. */
  lemma HeaderReadsBack(t: Tape, w: nat, h: nat, depth: nat, q: seq<byte>)
    requires t.Valid() && t.Rest() == HeaderBytes(w, h, depth) + q && w < DWORD && h < DWORD
    ensures var r := HeaderAt(t);
            && r.Header? && r.info == Info(w, h, FileDepth(depth), BI_RGB) && r.biSize == WININFOHEADERSIZE
            && r.ncol == Colours(depth) && r.win && r.rest == Skip(t, 54)
    ensures DwordAt(t, 10) == OffBits(depth)
    ensures FileSize(w, h, depth) < DWORD ==> DwordAt(t, 2) == FileSize(w, h, depth)
  {
    hide OctetAt, HeaderBytes, Le2, Le4, FileSize, Skip, WordAt, DwordAt;
    var s := HeaderBytes(w, h, depth);
    OctetsOfRest(t, s, q);
    assert forall i :: 0 <= i < 54 ==> OctetAt(t, i) == Octets(t, 54)[i] == s[i];
    HeaderFields(w, h, depth);
    Le2Value(s, 0, MAGIC, t);
    Le4Value(s, 10, OffBits(depth), t);
    Le4Value(s, 14, WININFOHEADERSIZE, t);
    Le4Value(s, 18, w, t);
    Le4Value(s, 22, h, t);
    Le2Value(s, 28, FileDepth(depth), t);
    Le4Value(s, 30, BI_RGB, t);
    if FileSize(w, h, depth) < DWORD { Le4Value(s, 2, FileSize(w, h, depth), t); }
    SmallIntFits(WININFOHEADERSIZE);
    ColoursCounted(depth);
    SeekNowhere(Skip(t, 54));
  }

  lemma ColoursCounted(depth: nat)
    ensures ColourCount(OffBits(depth) - WININFOHEADERSIZE - 14, 4) == Colours(depth)
  {
    SmallIntFits(Colours(depth));
  }

  lemma SeekNowhere(t: Tape)
    requires t.Valid()
    ensures Seek(t, 0, SeekCur) == t
  {}

  // ---------- the palette ----------

  lemma {:induction false} PaletteLength(pal: seq<Rgb>, reserved: seq<byte>, n: nat)
    requires n <= |pal| && n <= |reserved|
    ensures |Flatten(PaletteChunks(pal, reserved, n))| == 4 * n
  {
    if n != 0 {
      hide Quad;
      PaletteLength(pal, reserved, n - 1);
      WriteOneMore(Tape([], 0), PaletteChunks(pal, reserved, n - 1), B(Quad(pal[n - 1], reserved[n - 1])));
    }
  }

  lemma {:induction false} PaletteEntry(pal: seq<Rgb>, reserved: seq<byte>, n: nat, i: nat)
    requires i < n <= |pal| && n <= |reserved|
    ensures |Flatten(PaletteChunks(pal, reserved, n))| == 4 * n
    ensures Flatten(PaletteChunks(pal, reserved, n))[4 * i..4 * i + 4] == Quad(pal[i], reserved[i])
  {
    hide Quad, Flatten;
    PaletteLength(pal, reserved, n);
    PaletteLength(pal, reserved, n - 1);
    var s, last := Flatten(PaletteChunks(pal, reserved, n - 1)), Quad(pal[n - 1], reserved[n - 1]);
    WriteOneMore(Tape([], 0), PaletteChunks(pal, reserved, n - 1), B(last));
    if i < n - 1 {
      PaletteEntry(pal, reserved, n - 1, i);
      assert (s + last)[4 * i..4 * i + 4] == s[4 * i..4 * i + 4];
    }
  }

  /** Entries come back in order, whatever the reserved octets were. */
  lemma PaletteReadsBack(t: Tape, pal: seq<Rgb>, reserved: seq<byte>, n: nat, q: seq<byte>, i: nat)
    requires t.Valid() && n <= |pal| && n <= |reserved| && i < n
    requires t.Rest() == Flatten(PaletteChunks(pal, reserved, n)) + q
    ensures EntryAt(t, true, i) == pal[i]
  {
    hide OctetAt, Flatten, PaletteChunks;
    PaletteEntry(pal, reserved, n, i);
    var s := Flatten(PaletteChunks(pal, reserved, n));
    OctetsOfRest(t, s, q);
    assert forall k :: 0 <= k < |s| ==> OctetAt(t, k) == Octets(t, |s|)[k];
    var e := s[4 * i..4 * i + 4];
    assert e[0] == s[4 * i] && e[1] == s[4 * i + 1] && e[2] == s[4 * i + 2];
  }

  // ---------- the rows ----------

  /** Rows `n - 1` down to 0, as they lie in the file. */
  function RowsBytes(m: seq<byte>, w: nat, pitch: nat, depth: nat, n: nat): (s: seq<byte>)
    requires Readable(m, w, n, pitch, depth)
    ensures |s| == n * ScanlineBytes(w, depth)
  {
    if n == 0 then []
    else
      assert HasRow(m, n - 1, pitch, RowNeeds(w, depth));
      MulStep(n, ScanlineBytes(w, depth));
      RowOf(m, w, pitch, depth, n - 1) + RowsBytes(m, w, pitch, depth, n - 1)
  }

  lemma OneRowMore(m: seq<byte>, w: nat, h: nat, pitch: nat, depth: nat, n: nat)
    requires Readable(m, w, h, pitch, depth) && 0 < n <= h
    ensures HasRow(m, h - n, pitch, RowNeeds(w, depth))
    ensures RowsBytes(m, w, pitch, depth, h - n + 1)
         == RowOf(m, w, pitch, depth, h - n) + RowsBytes(m, w, pitch, depth, h - n)
    ensures Flatten(RowChunks(m, w, h, pitch, depth, n))
         == Flatten(RowChunks(m, w, h, pitch, depth, n - 1)) + RowOf(m, w, pitch, depth, h - n)
  {
    hide RowOf, ScanlineBytes, RowNeeds, Flatten;
    assert HasRow(m, h - n, pitch, RowNeeds(w, depth));
    WriteOneMore(Tape([], 0), RowChunks(m, w, h, pitch, depth, n - 1), B(RowOf(m, w, pitch, depth, h - n)));
  }

  lemma {:induction false} ChunksAreRows(m: seq<byte>, w: nat, h: nat, pitch: nat, depth: nat, n: nat)
    requires Readable(m, w, h, pitch, depth) && n <= h
    ensures Flatten(RowChunks(m, w, h, pitch, depth, n)) + RowsBytes(m, w, pitch, depth, h - n)
         == RowsBytes(m, w, pitch, depth, h)
  {
    hide RowOf, ScanlineBytes, RowNeeds, Flatten, RowChunks, RowsBytes, HasRow;
    if n == 0 {
      NoRowChunks(m, w, h, pitch, depth);
    } else {
      OneRowMore(m, w, h, pitch, depth, n);
      ChunksAreRows(m, w, h, pitch, depth, n - 1);
      ConcatAssoc(Flatten(RowChunks(m, w, h, pitch, depth, n - 1)), RowOf(m, w, pitch, depth, h - n),
        RowsBytes(m, w, pitch, depth, h - n));
    }
  }

  lemma NoRowChunks(m: seq<byte>, w: nat, h: nat, pitch: nat, depth: nat)
    requires Readable(m, w, h, pitch, depth)
    ensures Flatten(RowChunks(m, w, h, pitch, depth, 0)) + RowsBytes(m, w, pitch, depth, h) == RowsBytes(m, w, pitch, depth, h)
  {
    hide RowsBytes;
    assert Flatten(RowChunks(m, w, h, pitch, depth, 0)) == [];
  }

  lemma RawRowsFit(t: Tape, size: nat, n: nat, pitch: nat, w: nat)
    requires t.Valid() && n * pitch <= size
    ensures RowsFit(Raw, t, size, n, pitch, w)
    decreases n
  {
    if n != 0 {
      MulStep(n, pitch);
      RawRowsFit(RowTape(Raw, t, pitch, w), size, n - 1, pitch, w);
    }
  }

  /** One raw row read from a tape that holds it. */
  lemma RawRow(t: Tape, m: seq<byte>, at: nat, row: seq<byte>, q: seq<byte>, w: nat)
    requires t.Valid() && t.Rest() == row + q && at + |row| <= |m|
    ensures RowFits(Raw, t, |m|, at, |row|, w)
    ensures RowTape(Raw, t, |row|, w) == Skip(t, |row|) && Skip(t, |row|).Rest() == q
    ensures RowMemory(Raw, t, m, at, |row|, w) == Splice(m, at, row)
  {
    OctetsOfRest(t, row, q);
    assert Moved(t.Room(), 1, |row|) == |row|;
    assert t.bytes[t.pos..t.pos + |row|] == t.Rest()[..|row|] == row;
  }

  ghost predicate HoldsRow(m: seq<byte>, i: nat, p: nat, row: seq<byte>) {
    i * p + p <= |m| && m[i * p..i * p + p] == row
  }

  /** Rows are filled bottom-up, and memory behind the last row is left alone. */
  lemma {:induction false} RawRowsLoad(t: Tape, img: seq<byte>, m: seq<byte>, w: nat, pitch: nat, depth: nat, n: nat, q: seq<byte>, fw: nat)
    requires t.Valid() && Readable(m, w, n, pitch, depth)
    requires t.Rest() == RowsBytes(m, w, pitch, depth, n) + q
    requires n * ScanlineBytes(w, depth) <= |img| && RowsFit(Raw, t, |img|, n, ScanlineBytes(w, depth), fw)
    ensures var p, r := ScanlineBytes(w, depth), LoadRows(Raw, t, img, n, ScanlineBytes(w, depth), fw);
            && r.ok && r.tape.Rest() == q && r.m[n * p..] == img[n * p..]
            && forall i :: 0 <= i < n ==> HasRow(m, i, pitch, RowNeeds(w, depth)) && HoldsRow(r.m, i, p, RowOf(m, w, pitch, depth, i))
    decreases n
  {
    hide RowOf, RowNeeds, ScanlineBytes, Splice, RowMemory, RowFits, RowTape, HasRow, Skip;
    if n != 0 {
      var p := ScanlineBytes(w, depth);
      assert HasRow(m, n - 1, pitch, RowNeeds(w, depth));
      var row := RowOf(m, w, pitch, depth, n - 1);
      var at := (n - 1) * p;
      MulStep(n, p);
      var below := RowsBytes(m, w, pitch, depth, n - 1);
      ConcatAssoc(row, below, q);
      RawRow(t, img, at, row, below + q, fw);
      var next, img' := Skip(t, p), Splice(img, at, row);
      RawRowsLoad(next, img', m, w, pitch, depth, n - 1, q, fw);
      var r := LoadRows(Raw, next, img', n - 1, p, fw);
      TopRowStays(r.m, img, at, p, row, n);
    }
  }

  lemma TopRowStays(r: seq<byte>, img: seq<byte>, at: nat, p: nat, row: seq<byte>, n: nat)
    requires 0 < n && at == (n - 1) * p && n * p == at + p && |row| == p && at + p <= |img| && |r| == |img|
    requires r[at..] == Splice(img, at, row)[at..]
    ensures HoldsRow(r, n - 1, p, row) && r[n * p..] == img[n * p..]
  {
    var s := Splice(img, at, row);
    assert s[at..] == row + img[at + p..];
    assert r[at..at + p] == r[at..][..p] == row;
    assert r[at + p..] == r[at..][p..];
  }

  // ---------- what survives of a row ----------

  lemma PixelOctets(row: seq<byte>, k: nat, n: nat)
    requires 3 <= n <= 4 && k + n <= |row|
    ensures var p := PixelAt(row, k, n);
            p % 256 == row[k] as int && p / 256 % 256 == row[k + 1] as int && p / 0x1_0000 % 256 == row[k + 2] as int
  {
    var b0: int, b1: int, b2: int := row[k], row[k + 1], row[k + 2];
    var b3: int := if n > 3 then row[k + 3] else 0;
    ModUnique(PixelAt(row, k, n), 256, b1 + 0x100 * b2 + 0x1_0000 * b3, b0);
    ModUnique(PixelAt(row, k, n), 0x1_0000, b2 + 0x100 * b3, b0 + 0x100 * b1);
  }

  lemma LastPixel(row: seq<byte>, n: nat, depth: nat)
    requires (depth == 24 || depth == 32) && 0 < n && RowNeeds(n, depth) <= |row|
    ensures var k := (n - 1) * Depth2Bpp(depth);
            k + 3 <= |row| && RowPixels(row, n, depth) == RowPixels(row, n - 1, depth) + row[k..k + 3]
  {
    hide PixelAt;
    var k := (n - 1) * Depth2Bpp(depth);
    NeedsLess(n, depth);
    PixelOctets(row, k, Depth2Bpp(depth));
    assert row[k..k + 3] == [row[k], row[k + 1], row[k + 2]];
  }

  /** At depth 24 a row is saved as it is. */
  lemma {:induction false} TrueColourKept(row: seq<byte>, n: nat)
    requires RowNeeds(n, 24) <= |row|
    ensures RowPixels(row, n, 24) == row[..3 * n]
  {
    if n != 0 {
      TrueColourKept(row, n - 1);
      hide RowPixels;
      LastPixel(row, n, 24);
      assert row[..3 * n] == row[..3 * (n - 1)] + row[3 * (n - 1)..3 * n];
    }
  }

  /** At depth 32 each pixel loses its fourth octet. */
  lemma {:induction false} FourthOctetLost(row: seq<byte>, n: nat, i: nat)
    requires i < n && RowNeeds(n, 32) <= |row|
    ensures RowPixels(row, n, 32)[3 * i..3 * i + 3] == row[4 * i..4 * i + 3]
  {
    hide RowPixels;
    LastPixel(row, n, 32);
    var before, last := RowPixels(row, n - 1, 32), row[4 * (n - 1)..4 * (n - 1) + 3];
    if i < n - 1 {
      FourthOctetLost(row, n - 1, i);
      assert (before + last)[3 * i..3 * i + 3] == before[3 * i..3 * i + 3];
    }
  }

  lemma LowBitsSet(x: nat, y: nat)
    requires x < 32 && y < 64
    ensures OrByte(8 * x, 7) == 8 * x + 7 && OrByte(4 * y, 3) == 4 * y + 3
  {
    assert Pow2(3) == 8 && Pow2(2) == 4;
    OrShifted(x, 7, 3);
    OrShifted(y, 3, 2);
  }

  /** Blue, green and red of a word: the bits that it lacks are set. */
  lemma ColourOfWord(v: nat, depth: nat)
    requires depth == 15 || depth == 16
    ensures var c := Pixel2Rgb(v, BLACK, depth);
            && c.b as int == v % 32 * 8 + 7
            && c.g as int == (if depth == 15 then v / 32 % 32 * 8 + 7 else v / 32 % 64 * 4 + 3)
            && c.r as int == (if depth == 15 then v / 1024 % 32 * 8 + 7 else v / 2048 % 32 * 8 + 7)
  {
    hide OrByte;
    LowBitsSet(v % 32, v / 32 % 64);
    LowBitsSet(v / 32 % 32, 0);
    LowBitsSet(v / 1024 % 32, 0);
    LowBitsSet(v / 2048 % 32, 0);
  }

  /** The last pixel of a row in the file. */
  lemma LastOfRow(row: seq<byte>, n: nat, depth: nat, c: Rgb)
    requires depth != 4 && depth != 8 && 0 < n && RowNeeds(n, depth) <= |row|
    requires (n - 1) * Depth2Bpp(depth) + Depth2Bpp(depth) <= |row| && c == ColourAt(row, n - 1, depth)
    ensures RowNeeds(n - 1, depth) <= |row| && RowPixels(row, n, depth) == RowPixels(row, n - 1, depth) + [c.b, c.g, c.r]
  {
    NeedsLess(n, depth);
  }

  /** At depths 15 and 16 the bits of each pixel move to the top of three octets, and the
      bits below them are set. */
  lemma {:induction false} HighColourWidened(row: seq<byte>, n: nat, depth: nat, i: nat)
    requires (depth == 15 || depth == 16) && i < n && 2 * n <= |row|
    ensures var s, v := RowPixels(row, n, depth), row[2 * i] as int + 256 * row[2 * i + 1] as int;
            && s[3 * i] as int == v % 32 * 8 + 7
            && s[3 * i + 1] as int == (if depth == 15 then v / 32 % 32 * 8 + 7 else v / 32 % 64 * 4 + 3)
            && s[3 * i + 2] as int == (if depth == 15 then v / 1024 % 32 * 8 + 7 else v / 2048 % 32 * 8 + 7)
  {
    hide RowPixels, Pixel2Rgb;
    LastOfRow(row, n, depth, ColourAt(row, n - 1, depth));
    if i < n - 1 {
      HighColourWidened(row, n - 1, depth, i);
    } else {
      ColourOfWord(row[2 * i] as int + 256 * row[2 * i + 1] as int, depth);
    }
  }

  /** Pixels of a depth that is not known are saved black. */
  lemma {:induction false} UnknownDepthIsBlack(row: seq<byte>, n: nat, depth: nat)
    requires depth !in {4, 8, 15, 16, 24, 32} && n <= |row|
    ensures RowPixels(row, n, depth) == Zeros(3 * n)
  {
    if n != 0 {
      hide RowPixels;
      UnknownDepthIsBlack(row, n - 1, depth);
      LastOfRow(row, n, depth, BLACK);
    } else {
      assert Zeros(0) == [];
    }
  }

  /** At depth 4 the low halves of two octets share one, the first of them on top; at
      depth 8 octets are saved as they are. */
  lemma SmallPixelsKept(row: seq<byte>, n: nat, k: nat)
    requires n <= |row|
    ensures RowPixels(row, n, 8) == row[..n]
    ensures 2 * k < n ==>
      RowPixels(row, n, 4)[k] as int == row[2 * k] as int % 16 * 16 + if 2 * k + 1 < n then row[2 * k + 1] as int % 16 else 0
  {
    if 2 * k < n {
      var hi: nibble := row[2 * k] % 16;
      var lo: nibble := if 2 * k + 1 < n then row[2 * k + 1] % 16 else 0;
      assert RowPixels(row, n, 4)[k] == Join(hi, lo);
    }
  }

  // ---------- the whole file ----------

  lemma SnocFlatten(cs: seq<Chunk>, c: Chunk)
    ensures Flatten(cs + [c]) == Flatten(cs) + c.data
  {
    assert (cs + [c])[..|cs|] == cs;
  }

  lemma FlattenFive(a: Chunk, b: Chunk, c: Chunk, d: Chunk, e: Chunk)
    ensures Flatten([a, b, c, d, e]) == a.data + b.data + c.data + d.data + e.data
  {
    hide Flatten;
    FlattenOne(a);
    SnocFlatten([a], b);
    SnocFlatten([a, b], c);
    SnocFlatten([a, b, c], d);
    SnocFlatten([a, b, c, d], e);
    assert [a] + [b] == [a, b] && [a, b] + [c] == [a, b, c];
    assert [a, b, c] + [d] == [a, b, c, d] && [a, b, c, d] + [e] == [a, b, c, d, e];
  }

  lemma FlattenOne(a: Chunk)
    ensures Flatten([a]) == a.data
  {
    assert [a][..0] == [] && [] + a.data == a.data;
  }

  lemma HeaderFlattens(w: nat, h: nat, depth: nat)
    ensures Flatten(HeaderChunks(w, h, depth)) == HeaderBytes(w, h, depth)
  {
    hide Flatten, Le2, Le4, FileSize, ImageSize, OffBits, Colours, FileDepth;
    var a, b, c := FileHeaderChunks(w, h, depth), DimensionChunks(w, h, depth), ContentChunks(w, h, depth);
    FlattenConcat(a + b, c);
    FlattenConcat(a, b);
    FlattenFive(a[0], a[1], a[2], a[3], a[4]);
    FlattenFive(b[0], b[1], b[2], b[3], b[4]);
    FlattenFive(c[0], c[1], c[2], c[3], c[4]);
    SnocFlatten([c[0], c[1], c[2], c[3], c[4]], c[5]);
    assert [c[0], c[1], c[2], c[3], c[4]] + [c[5]] == c;
  }

  /** The file is its headers, its palette and its rows, and `bfSize` octets long. */
  lemma FileFlattens(m: seq<byte>, w: nat, h: nat, pitch: nat, depth: nat, pal: seq<Rgb>, reserved: seq<byte>)
    requires Readable(m, w, h, pitch, depth) && Colours(depth) <= |pal| && Colours(depth) <= |reserved|
    ensures Flatten(FileChunks(m, w, h, pitch, depth, pal, reserved))
         == HeaderBytes(w, h, depth) + (Flatten(PaletteChunks(pal, reserved, Colours(depth))) + RowsBytes(m, w, pitch, depth, h))
    ensures |Flatten(FileChunks(m, w, h, pitch, depth, pal, reserved))| == FileSize(w, h, depth)
  {
    hide Flatten, HeaderChunks, HeaderBytes, PaletteChunks, RowChunks, Colours, ScanlineBytes;
    var a, b, c := HeaderChunks(w, h, depth), PaletteChunks(pal, reserved, Colours(depth)), RowChunks(m, w, h, pitch, depth, h);
    FlattenConcat(a + b, c);
    FlattenConcat(a, b);
    HeaderFlattens(w, h, depth);
    ChunksAreRows(m, w, h, pitch, depth, h);
    NoRows(m, w, pitch, depth);
    assert Flatten(c) + [] == Flatten(c);
    PaletteLength(pal, reserved, Colours(depth));
    ConcatAssoc(Flatten(a), Flatten(b), Flatten(c));
  }

  lemma NoRows(m: seq<byte>, w: nat, pitch: nat, depth: nat)
    ensures RowsBytes(m, w, pitch, depth, 0) == []
  {}

  /** What the stream holds once a file that fits has been saved at `t`. */
  lemma SavedTape(t: Tape, cs: seq<Chunk>)
    requires t.Valid() && AreChunks(cs) && |Flatten(cs)| <= t.Room()
    ensures var s := WriteAll(t, cs);
            var back := Seek(s, t.pos, SeekSet);
            && s.pos == t.pos + |Flatten(cs)|
            && back.pos == t.pos && back.Rest() == Flatten(cs) + t.bytes[t.pos + |Flatten(cs)|..]
  {
    hide WriteAll, Flatten;
    WritesThatFit(t, cs);
    var s := Put(t, Flatten(cs));
    assert s.bytes[t.pos..] == Flatten(cs) + t.bytes[t.pos + |Flatten(cs)|..];
  }

  /** All of the above for one file: where the palette and the rows start, and what
      they are. */
  lemma FileReadsBack(t: Tape, m: seq<byte>, w: nat, h: nat, pitch: nat, depth: nat, pal: seq<Rgb>, reserved: seq<byte>, q: seq<byte>)
    requires t.Valid() && w < DWORD && h < DWORD
    requires Readable(m, w, h, pitch, depth) && Colours(depth) <= |pal| && Colours(depth) <= |reserved|
    requires t.Rest() == Flatten(FileChunks(m, w, h, pitch, depth, pal, reserved)) + q
    ensures var r, rows := HeaderAt(t), Skip(t, OffBits(depth));
            && r.Header? && r.info == Info(w, h, FileDepth(depth), BI_RGB) && r.biSize == WININFOHEADERSIZE
            && r.ncol == Colours(depth) && r.win && r.rest == Skip(t, 54)
            && Skip(r.rest, 4 * Colours(depth)) == rows
            && rows.pos == t.pos + OffBits(depth) == t.pos + DwordAt(t, 10)
            && rows.Rest() == RowsBytes(m, w, pitch, depth, h) + q
            && forall i :: 0 <= i < Colours(depth) ==> EntryAt(r.rest, true, i) == pal[i]
  {
    hide Flatten, FileChunks, HeaderBytes, HeaderAt, PaletteChunks, RowsBytes, EntryAt, Skip, DwordAt;
    var n := Colours(depth);
    var palette, rows := Flatten(PaletteChunks(pal, reserved, n)), RowsBytes(m, w, pitch, depth, h);
    FileFlattens(m, w, h, pitch, depth, pal, reserved);
    PaletteLength(pal, reserved, n);
    ConcatAssoc(HeaderBytes(w, h, depth), palette + rows, q);
    ConcatAssoc(palette, rows, q);
    OctetsOfRest(t, HeaderBytes(w, h, depth), palette + (rows + q));
    HeaderReadsBack(t, w, h, depth, palette + (rows + q));
    OctetsOfRest(Skip(t, 54), palette, rows + q);
    SkipSkip(t, 54, 4 * n);
    forall i | 0 <= i < n ensures EntryAt(Skip(t, 54), true, i) == pal[i] {
      PaletteReadsBack(Skip(t, 54), pal, reserved, n, rows + q, i);
    }
  }

  /** Loads the file at the cursor, given what its headers, palette and rows are. */
  method LoadBack(f: MemRW, ghost m: seq<byte>, ghost w: nat, ghost h: nat, ghost pitch: nat, ghost depth: nat,
                  ghost pal: seq<Rgb>, ghost q: seq<byte>, loaded: MyBitmap, pal2: array<Rgb>) returns (ok: bool)
    requires f.Valid() && Readable(m, w, h, pitch, depth)
    requires Colours(depth) <= |pal| && Colours(depth) <= pal2.Length
    requires var r, rows := HeaderAt(f.View()), Skip(f.View(), OffBits(depth));
             && r.Header? && r.info == Info(w, h, FileDepth(depth), BI_RGB) && r.ncol == Colours(depth) && r.win
             && Skip(r.rest, 4 * Colours(depth)) == rows && rows.Rest() == RowsBytes(m, w, pitch, depth, h) + q
             && r.rest == Skip(r.rest, 0)
             && forall i :: 0 <= i < Colours(depth) ==> EntryAt(r.rest, true, i) == pal[i]
    modifies f`here, loaded, pal2
    ensures ok && loaded.w == w && loaded.h == h && loaded.depth == FileDepth(depth)
    ensures loaded.pitch == ScanlineBytes(w, depth) && loaded.bits.Length == loaded.h * loaded.pitch
    ensures forall i :: 0 <= i < Colours(depth) ==> pal2[i] == pal[i]
    ensures forall i :: 0 <= i < h ==>
      HasRow(m, i, pitch, RowNeeds(w, depth)) && HoldsRow(loaded.bits[..], i, loaded.pitch, RowOf(m, w, pitch, depth, i))
    ensures f.Valid() && f.View().Rest() == q
  {
    hide RowsBytes, Readable, HeaderAt, EntryAt, LoadRows, RowsFit, Colours, RowOf, HasRow, ScanlineBytes, Pitch, Skip, RowNeeds;
    ghost var s := f.View();
    PaletteCount(s, depth, w, h);
    var info := InitBmp(f, loaded, pal2);
    PitchIsScanlineBytes(w, depth);
    loaded.bits := new byte[loaded.h * loaded.pitch];
    assert f.View() == Skip(s, OffBits(depth));
    RawRowsFit(f.View(), loaded.bits.Length, h, loaded.pitch, w);
    RawRowsLoad(f.View(), loaded.bits[..], m, w, pitch, depth, h, q, w);
    ok := LoadBmp(f, info.value, loaded);
  }

  /** Saves a bitmap, goes back to where it was saved, and loads it. */
  method SaveThenLoad(f: MemRW, bmp: MyBitmap, beyond: seq<byte>, pal: array<Rgb>, reserved: seq<byte>, loaded: MyBitmap, pal2: array<Rgb>) returns (ok: bool)
    requires f.Valid() && bmp.bits != f.mem && bmp != loaded && pal != pal2 && |beyond| == 3
    requires Readable(bmp.bits[..], bmp.w, bmp.h, bmp.pitch, bmp.depth) && bmp.w < DWORD && bmp.h < DWORD
    requires Colours(bmp.depth) <= pal.Length && Colours(bmp.depth) <= |reserved| && Colours(bmp.depth) <= pal2.Length
    requires FileSize(bmp.w, bmp.h, bmp.depth) <= f.View().Room()
    modifies f`here, f.mem, loaded, pal2
    ensures ok && loaded.w == bmp.w && loaded.h == bmp.h && loaded.depth == FileDepth(bmp.depth)
    ensures loaded.pitch == ScanlineBytes(bmp.w, bmp.depth) && loaded.bits.Length == loaded.h * loaded.pitch
    ensures forall i :: 0 <= i < Colours(bmp.depth) ==> pal2[i] == pal[i]
    ensures forall i :: 0 <= i < bmp.h ==>
      HasRow(bmp.bits[..], i, bmp.pitch, RowNeeds(bmp.w, bmp.depth)) &&
      HoldsRow(loaded.bits[..], i, loaded.pitch, RowOf(bmp.bits[..], bmp.w, bmp.pitch, bmp.depth, i))
    ensures f.Valid() && f.here == old(f.here) + FileSize(bmp.w, bmp.h, bmp.depth)
  {
    hide WriteAll, FileChunks, Flatten, RowsBytes, Readable, HeaderAt, EntryAt, LoadRows, RowsFit, Colours, RowOf, HasRow, ScanlineBytes, Pitch, Skip, RowNeeds;
    ghost var t, m, colours := f.View(), bmp.bits[..], pal[..];
    var w, h, pitch, depth := bmp.w, bmp.h, bmp.pitch, bmp.depth;
    ghost var cs := FileChunks(m, w, h, pitch, depth, colours, reserved);
    ghost var q := t.bytes[t.pos + FileSize(w, h, depth)..];
    var start := f.here;
    SaveBmp(f, bmp, beyond, pal, reserved);
    FileFlattens(m, w, h, pitch, depth, colours, reserved);
    SavedTape(t, cs);
    var pos := f.SeekTo(start, SeekSet);
    ghost var s := f.View();
    FileReadsBack(s, m, w, h, pitch, depth, colours, reserved, q);
    SkipNothing(HeaderAt(s).rest);
    ok := LoadBack(f, m, w, h, pitch, depth, colours, q, loaded, pal2);
    RestFixesCursor(s, f.View(), q);
  }

  lemma PaletteCount(t: Tape, depth: nat, w: nat, h: nat)
    requires t.Valid()
    requires HeaderAt(t).Header? && HeaderAt(t).info == Info(w, h, FileDepth(depth), BI_RGB) && HeaderAt(t).ncol == Colours(depth)
    ensures PaletteSize(HeaderAt(t)) == Colours(depth)
  {
    hide HeaderAt;
  }

  lemma RestFixesCursor(s: Tape, r: Tape, q: seq<byte>)
    requires s.Valid() && r.Valid() && r.bytes == s.bytes && r.Rest() == q
    ensures r.pos == |s.bytes| - |q|
  {}
}
