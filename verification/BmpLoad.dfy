/** `__mg_init_bmp` and `__mg_load_bmp`, in full-image mode. */
module BmpLoad {
  import opened Bytes
  import opened MemStream
  import opened Reader
  import opened Rle
  import opened BmpFormat
  import Rle4
  import Rle8

  datatype InitInfo = InitInfo(biWidth: nat, biHeight: nat, biBitCount: nat, biCompression: nat,
                               rmask: nat, gmask: nat, bmask: nat)

  // ---------- headers ----------

  datatype Header =
    | BadHeader(rest: Tape)
    | Header(info: InitInfo, biSize: int, ncol: int, win: bool, rest: Tape)

  /** An `unsigned long` quotient stored in an `int`. */
  function ColourCount(difference: int, size: nat): int
    requires 0 < size
  {
    ToInt32(difference % 0x1_0000_0000_0000_0000 / size)
  }

  function Info(w: nat, h: nat, bitCount: nat, compression: nat): InitInfo {
    InitInfo(w, h, bitCount, compression, 0x001f, 0x03e0, 0x7c00)
  }

  /** The headers at the cursor; `rest` is where the palette would start. */
  function HeaderAt(t: Tape): (r: Header)
    requires t.Valid()
    ensures r.rest.Valid()
  {
    var off, biSize := DwordAt(t, 10), ToInt32(DwordAt(t, 14));
    if WordAt(t, 0) != MAGIC then BadHeader(Skip(t, 14))
    else if biSize >= WININFOHEADERSIZE then
      Header(Info(DwordAt(t, 18), DwordAt(t, 22), WordAt(t, 28), DwordAt(t, 30)), biSize,
             ColourCount(off - biSize - 14, 4), true,
             Seek(Skip(t, 54), biSize - WININFOHEADERSIZE, SeekCur))
    else if biSize == OS2INFOHEADERSIZE then
      Header(Info(WordAt(t, 18), WordAt(t, 20), WordAt(t, 24), BI_RGB), biSize,
             ColourCount(off - 26, 3), false, Skip(t, 26))
    else BadHeader(Skip(t, 18))
  }

  /** How many palette entries are read: only for 1, 4 and 8 bits. */
  function PaletteSize(r: Header): nat {
    if r.Header? && r.info.biBitCount <= 8 && r.ncol > 0 then r.ncol else 0
  }

  function EntryOffset(win: bool, i: nat): nat {
    if win then 4 * i else 3 * i
  }

  function EntryAt(t: Tape, win: bool, i: nat): Rgb
    requires t.Valid()
  {
    var k := EntryOffset(win, i);
    Rgb(OctetAt(t, k + 2), OctetAt(t, k + 1), OctetAt(t, k))
  }

  function EffectDepth(bitCount: nat): nat {
    if bitCount == 16 then 24 else bitCount
  }

  method ReadBmFileHeader(f: MemRW) returns (bfType: nat, bfOffBits: nat)
    requires f.Valid()
    modifies f`here
    ensures f.Valid() && f.View() == Skip(old(f.View()), 14)
    ensures bfType == WordAt(old(f.View()), 0) && bfOffBits == DwordAt(old(f.View()), 10)
  {
    hide Skip, WordAt, DwordAt;
    ghost var t := f.View();
    SkipNothing(t);
    bfType := GetWAt(f, t, 0);
    var bfSize := GetLAt(f, t, 2);
    var bfReserved1 := GetWAt(f, t, 6);
    var bfReserved2 := GetWAt(f, t, 8);
    bfOffBits := GetLAt(f, t, 10);
  }

  /** The forty-octet header, less its size field. */
  method ReadWinBmInfoHeader(f: MemRW, ghost t: Tape) returns (w: nat, h: nat, bitCount: nat, compression: nat)
    requires f.Valid() && t.Valid() && f.View() == Skip(t, 18)
    modifies f`here
    ensures f.Valid() && f.View() == Skip(t, 54)
    ensures w == DwordAt(t, 18) && h == DwordAt(t, 22) && bitCount == WordAt(t, 28) && compression == DwordAt(t, 30)
  {
    hide Skip, WordAt, DwordAt;
    w := GetLAt(f, t, 18);
    h := GetLAt(f, t, 22);
    var biPlanes := GetWAt(f, t, 26);
    bitCount := GetWAt(f, t, 28);
    compression := GetLAt(f, t, 30);
    var biSizeImage := GetLAt(f, t, 34);
    var biXPelsPerMeter := GetLAt(f, t, 38);
    var biYPelsPerMeter := GetLAt(f, t, 42);
    var biClrUsed := GetLAt(f, t, 46);
    var biClrImportant := GetLAt(f, t, 50);
  }

  method ReadOs2BmInfoHeader(f: MemRW, ghost t: Tape) returns (w: nat, h: nat, bitCount: nat)
    requires f.Valid() && t.Valid() && f.View() == Skip(t, 18)
    modifies f`here
    ensures f.Valid() && f.View() == Skip(t, 26)
    ensures w == WordAt(t, 18) && h == WordAt(t, 20) && bitCount == WordAt(t, 24)
  {
    hide Skip, WordAt;
    w := GetWAt(f, t, 18);
    h := GetWAt(f, t, 20);
    var biPlanes := GetWAt(f, t, 22);
    bitCount := GetWAt(f, t, 24);
  }

  /** One palette entry, with its reserved octet in a Windows file. */
  method ReadEntry(f: MemRW, win: bool, ghost t: Tape, ghost i: nat) returns (c: Rgb)
    requires f.Valid() && t.Valid() && f.View() == Skip(t, EntryOffset(win, i))
    modifies f`here
    ensures f.Valid() && f.View() == Skip(t, EntryOffset(win, i + 1)) && c == EntryAt(t, win, i)
  {
    hide Skip, OctetAt;
    ghost var k := EntryOffset(win, i);
    var b := GetOctetAt(f, t, k);
    var g := GetOctetAt(f, t, k + 1);
    var r := GetOctetAt(f, t, k + 2);
    if win {
      var reserved := GetOctetAt(f, t, k + 3);
    }
    c := Rgb(r, g, b);
  }

  method ReadBmiColors(f: MemRW, ncols: int, pal: array<Rgb>, win: bool)
    requires f.Valid() && ncols <= pal.Length
    modifies f`here, pal
    ensures var n := if ncols > 0 then ncols else 0;
            && f.Valid() && f.View() == Skip(old(f.View()), EntryOffset(win, n))
            && (forall i :: 0 <= i < n ==> pal[i] == EntryAt(old(f.View()), win, i))
            && (forall i :: n <= i < pal.Length ==> pal[i] == old(pal[i]))
  {
    hide Skip, EntryAt;
    ghost var t := f.View();
    SkipNothing(t);
    var i := 0;
    while i < ncols
      invariant 0 <= i && (i <= ncols || ncols < 0) && f.Valid() && f.View() == Skip(t, EntryOffset(win, i))
      invariant ncols < 0 ==> i == 0
      invariant forall j :: 0 <= j < i ==> pal[j] == EntryAt(t, win, j)
      invariant forall j :: i <= j < pal.Length ==> pal[j] == old(pal[j])
    {
      pal[i] := ReadEntry(f, win, t, i);
      i := i + 1;
    }
  }

  method InitBmp(f: MemRW, bmp: MyBitmap, pal: array<Rgb>) returns (info: Option<InitInfo>)
    requires f.Valid() && PaletteSize(HeaderAt(f.View())) <= pal.Length
    modifies f`here, pal, bmp`w, bmp`h, bmp`depth, bmp`pitch, bmp`frames, bmp`size
    ensures var t := old(f.View());
            var r, n := HeaderAt(t), PaletteSize(HeaderAt(t));
            && f.Valid() && f.View() == (if n > 0 then Skip(r.rest, EntryOffset(r.win, n)) else r.rest)
            && (info.None? <==> r.BadHeader?)
            && (r.BadHeader? ==> bmp.w == old(bmp.w) && bmp.h == old(bmp.h) && bmp.depth == old(bmp.depth) && bmp.pitch == old(bmp.pitch))
            && (r.Header? ==> info == Some(r.info) && bmp.w == r.info.biWidth && bmp.h == r.info.biHeight)
            && (r.Header? ==> bmp.depth == EffectDepth(r.info.biBitCount) && bmp.pitch == Pitch(bmp.w, bmp.depth))
            && (r.Header? ==> bmp.frames == 1 && bmp.size == r.biSize)
            && (forall i :: 0 <= i < n ==> pal[i] == EntryAt(r.rest, r.win, i))
            && (forall i :: n <= i < pal.Length ==> pal[i] == old(pal[i]))
  {
    hide Skip, OctetAt, WordAt, DwordAt, Pitch, EntryAt, ColourCount, Seek;
    ghost var t := f.View();
    var bfType, bfOffBits := ReadBmFileHeader(f);
    if bfType != MAGIC {
      return None;
    }
    var size := GetLAt(f, t, 14);
    var biSize := ToInt32(size);
    var w, h, bitCount, compression, ncol, win := 0, 0, 0, BI_RGB, 0, true;
    if biSize >= WININFOHEADERSIZE {
      w, h, bitCount, compression := ReadWinBmInfoHeader(f, t);
      var pos := f.SeekTo(biSize - WININFOHEADERSIZE, SeekCur);
      ncol := ColourCount(bfOffBits - biSize - 14, 4);
    } else if biSize == OS2INFOHEADERSIZE {
      w, h, bitCount := ReadOs2BmInfoHeader(f, t);
      win := false;
      ncol := ColourCount(bfOffBits - 26, 3);
    } else {
      return None;
    }
    if bitCount <= 8 {
      SkipNothing(f.View());
      ReadBmiColors(f, ncol, pal, win);
    }
    bmp.w, bmp.h, bmp.depth, bmp.frames, bmp.size := w, h, EffectDepth(bitCount), 1, biSize;
    bmp.pitch := Pitch(w, EffectDepth(bitCount));
    info := Some(Info(w, h, bitCount, compression));
  }

  // ---------- rows ----------

  datatype RowKind = Raw | High16(gmask: nat) | KindRle8 | KindRle4

  /** A 16-bit pixel as blue, green and red octets. */
  function Wide(p: nat, gmask: nat): seq<byte> {
    if gmask == 0x03e0 then [p % 32 * 8, p / 32 % 32 * 8, p / 1024 % 32 * 8]
    else [p % 32 * 8, p / 32 % 64 * 4, p / 2048 % 32 * 8]
  }

  /** The 16-bit pixel that octets of the two formats stand for. */
  function Narrow(b: nat, g: nat, r: nat, gmask: nat): nat {
    if gmask == 0x03e0 then b / 8 + g / 8 * 32 + r / 8 * 1024
    else b / 8 + g / 4 * 32 + r / 8 * 2048
  }

  lemma Digits(p: nat, g: nat)
    requires g == 32 || g == 64
    ensures p / (32 * g) == p / 32 / g
    ensures p == p % 32 + 32 * (p / 32 % g) + 32 * g * (p / (32 * g))
  {
    var q := p / 32;
    ModUnique(p, 32 * g, q / g, 32 * (q % g) + p % 32);
  }

  lemma TopDigit(p: nat)
    ensures p % 0x8000 == p % 0x400 + 0x400 * (p / 0x400 % 32)
  {
    ModUnique(p, 0x8000, p / 0x400 / 32, p % 0x400 + 0x400 * (p / 0x400 % 32));
  }

  lemma Fields555(p: nat)
    ensures p % 32 + 32 * (p / 32 % 32) + 1024 * (p / 1024 % 32) == p % 0x8000
  {
    Digits(p, 32);
    TopDigit(p);
    ModUnique(p, 0x400, p / 0x400, p % 32 + 32 * (p / 32 % 32));
  }

  lemma Fields565(p: nat)
    requires p < 0x1_0000
    ensures p % 32 + 32 * (p / 32 % 64) + 2048 * (p / 2048 % 32) == p
  {
    Digits(p, 64);
  }

  lemma NarrowScaled(x: nat, y: nat, z: nat)
    ensures Narrow(x * 8, y * 8, z * 8, 0x03e0) == x + 32 * y + 1024 * z
    ensures forall gmask :: gmask != 0x03e0 ==> Narrow(x * 8, y * 4, z * 8, gmask) == x + 32 * y + 2048 * z
  {}

  /** Widening loses no bit that the format has: 15 of a 5-5-5 pixel, all of a 5-6-5 one. */
  lemma WideIsFaithful(p: nat, gmask: nat)
    requires p < 0x1_0000
    ensures Narrow(Wide(p, gmask)[0], Wide(p, gmask)[1], Wide(p, gmask)[2], gmask)
         == if gmask == 0x03e0 then p % 0x8000 else p
  {
    hide Narrow;
    Fields555(p);
    Fields565(p);
    NarrowScaled(p % 32, p / 32 % 32, p / 1024 % 32);
    NarrowScaled(p % 32, p / 32 % 64, p / 2048 % 32);
  }

  function WideRow(t: Tape, n: nat, gmask: nat): (s: seq<byte>)
    requires t.Valid()
    ensures |s| == 3 * n
  {
    if n == 0 then [] else WideRow(t, n - 1, gmask) + Wide(WordAt(t, 2 * (n - 1)), gmask)
  }

  function RowFlag(kind: RowKind, t: Tape, w: nat): Flag
    requires t.Valid()
  {
    match kind
    case KindRle8 => Rle8.Decode(t, 0, w).flag
    case KindRle4 => Rle4.Decode(t, 0, w).flag
    case _ => BmpLine
  }

  function RowTape(kind: RowKind, t: Tape, pitch: nat, w: nat): (r: Tape)
    requires t.Valid()
    ensures r.Valid()
  {
    match kind
    case Raw => AfterRead(t, 1, pitch)
    case High16(_) => Skip(t, 2 * w + 2 * (w % 2))
    case KindRle8 => Rle8.Decode(t, 0, w).tape
    case KindRle4 => Rle4.Decode(t, 0, w).tape
  }

  /** All that reading the row writes lies within the memory. */
  predicate RowFits(kind: RowKind, t: Tape, size: nat, at: nat, pitch: nat, w: nat)
    requires t.Valid()
  {
    at + (match kind
          case Raw => Moved(t.Room(), 1, pitch)
          case High16(_) => 3 * w
          case KindRle8 => |Rle8.Decode(t, 0, w).cells|
          case KindRle4 => Rle4.Bytes4(|Rle4.Decode(t, 0, w).cells|)) <= size
  }

  function RowMemory(kind: RowKind, t: Tape, m: seq<byte>, at: nat, pitch: nat, w: nat): (r: seq<byte>)
    requires t.Valid() && RowFits(kind, t, |m|, at, pitch, w)
    ensures |r| == |m|
  {
    match kind
    case Raw => Splice(m, at, ReadData(t, 1, pitch))
    case High16(gmask) => Splice(m, at, WideRow(t, w, gmask))
    case KindRle8 => Rle8.PaintAt(m, at, Rle8.Decode(t, 0, w).cells)
    case KindRle4 => Rle4.PaintAt(m, at, 0, Rle4.Decode(t, 0, w).cells)
  }

  datatype Loaded = Loaded(ok: bool, tape: Tape, m: seq<byte>)

  predicate RowsFit(kind: RowKind, t: Tape, size: nat, n: nat, pitch: nat, w: nat)
    requires t.Valid()
    decreases n
  {
    n == 0 ||
    (RowFits(kind, t, size, (n - 1) * pitch, pitch, w) &&
     (RowFlag(kind, t, w) == BmpLine ==> RowsFit(kind, RowTape(kind, t, pitch, w), size, n - 1, pitch, w)))
  }

  /** Rows `n - 1` down to 0, until an end of picture or an error. */
  function LoadRows(kind: RowKind, t: Tape, m: seq<byte>, n: nat, pitch: nat, w: nat): (r: Loaded)
    requires t.Valid() && RowsFit(kind, t, |m|, n, pitch, w)
    ensures r.tape.Valid() && |r.m| == |m|
    decreases n
  {
    if n == 0 then Loaded(true, t, m)
    else
      var flag, next := RowFlag(kind, t, w), RowTape(kind, t, pitch, w);
      var m' := RowMemory(kind, t, m, (n - 1) * pitch, pitch, w);
      if flag == BmpErr then Loaded(false, next, m')
      else if flag == BmpEnd then Loaded(true, next, m')
      else LoadRows(kind, next, m', n - 1, pitch, w)
  }

  lemma WideNext(t: Tape, n: nat, gmask: nat)
    requires t.Valid()
    ensures WideRow(t, n + 1, gmask) == WideRow(t, n, gmask) + Wide(WordAt(t, 2 * n), gmask)
    ensures |Wide(WordAt(t, 2 * n), gmask)| == 3
  {}

  lemma SpliceNext(m: seq<byte>, at: nat, s: seq<byte>, x: seq<byte>)
    requires at + |s| + |x| <= |m|
    ensures Splice(Splice(m, at, s), at + |s|, x) == Splice(m, at, s + x)
  {
    var a := Splice(m, at, s);
    assert a[..at + |s|] == m[..at] + s;
    assert a[at + |s| + |x|..] == m[at + |s| + |x|..];
  }

  method StoreWide(bits: array<byte>, line: nat, pixel: nat, gmask: nat)
    requires line + 3 <= bits.Length
    modifies bits
    ensures bits[..] == Splice(old(bits[..]), line, Wide(pixel, gmask))
  {
    if gmask == 0x03e0 {
      bits[line + 2] := pixel / 1024 % 32 * 8;
      bits[line + 1] := pixel / 32 % 32 * 8;
      bits[line] := pixel % 32 * 8;
    } else {
      bits[line + 2] := pixel / 2048 % 32 * 8;
      bits[line + 1] := pixel / 32 % 64 * 4;
      bits[line] := pixel % 32 * 8;
    }
  }

  method Read16BitImage(f: MemRW, bits: array<byte>, at: nat, pitch: nat, width: nat, gmask: nat)
    requires f.Valid() && f.mem != bits && RowFits(High16(gmask), f.View(), bits.Length, at, pitch, width)
    modifies f`here, bits
    ensures f.Valid() && f.View() == RowTape(High16(gmask), old(f.View()), pitch, width)
    ensures bits[..] == RowMemory(High16(gmask), old(f.View()), old(bits[..]), at, pitch, width)
  {
    hide Skip, Splice, WordAt, Wide, WideRow;
    ghost var t, m := f.View(), bits[..];
    var line := at;
    SkipNothing(t);
    SpliceNothing(t, m, at, gmask);
    for i := 0 to width
      invariant line == at + 3 * i && f.Valid() && f.View() == Skip(t, 2 * i)
      invariant bits[..] == Splice(m, at, WideRow(t, i, gmask))
    {
      var pixel := GetWAt(f, t, 2 * i);
      WideNext(t, i, gmask);
      SpliceNext(m, at, WideRow(t, i, gmask), Wide(pixel, gmask));
      StoreWide(bits, line, pixel, gmask);
      line := line + 3;
    }
    if width % 2 == 1 {
      var gap := GetWAt(f, t, 2 * width);
    }
  }

  lemma SpliceNothing(t: Tape, m: seq<byte>, at: nat, gmask: nat)
    requires t.Valid() && at <= |m|
    ensures WideRow(t, 0, gmask) == [] && Splice(m, at, []) == m
  {}

  method LoadRow(f: MemRW, kind: RowKind, bits: array<byte>, at: nat, pitch: nat, w: nat) returns (flag: Flag)
    requires f.Valid() && f.mem != bits && RowFits(kind, f.View(), bits.Length, at, pitch, w)
    modifies f`here, bits
    ensures var t := old(f.View());
            && f.Valid() && f.View() == RowTape(kind, t, pitch, w) && flag == RowFlag(kind, t, w)
            && bits[..] == RowMemory(kind, t, old(bits[..]), at, pitch, w)
  {
    hide Rle8.Decode, Rle4.Decode, Rle8.PaintAt, Rle4.PaintAt, Moved, WideRow;
    flag := BmpLine;
    match kind {
      case Raw =>
        ghost var m := bits[..];
        var num := f.Read(bits, at, 1, pitch);
        assert m[..at] == old(bits[..at]);
      case High16(gmask) =>
        Read16BitImage(f, bits, at, pitch, w, gmask);
      case KindRle8 =>
        flag := Rle8.ReadRle8(f, bits, at, pitch, w);
      case KindRle4 =>
        flag := Rle4.ReadRle4(f, bits, at, pitch, w);
    }
  }

  // ---------- the whole image ----------

  /** The masks that BI_BITFIELDS adds, and how rows are read; `None` for an unknown compression. */
  function KindOf(info: InitInfo, gmask: nat): Option<RowKind> {
    if info.biCompression == BI_RLE8 then Some(KindRle8)
    else if info.biCompression == BI_RLE4 then Some(KindRle4)
    else if info.biCompression == BI_RGB || info.biCompression == BI_BITFIELDS then
      Some(if info.biBitCount == 16 then High16(gmask) else Raw)
    else None
  }

  function KindAt(info: InitInfo, t: Tape): Option<RowKind>
    requires t.Valid()
  {
    KindOf(info, if info.biCompression == BI_BITFIELDS then DwordAt(t, 4) else info.gmask)
  }

  function PixelTape(info: InitInfo, t: Tape): (r: Tape)
    requires t.Valid()
    ensures r.Valid()
  {
    if info.biCompression == BI_BITFIELDS then Skip(t, 12) else t
  }

  method LoadBmp(f: MemRW, info: InitInfo, bmp: MyBitmap) returns (ok: bool)
    requires f.Valid() && f.mem != bmp.bits
    requires KindAt(info, f.View()).Some? ==>
      RowsFit(KindAt(info, f.View()).value, PixelTape(info, f.View()), bmp.bits.Length, bmp.h, bmp.pitch, bmp.w)
    modifies f`here, bmp.bits
    ensures f.Valid()
    ensures KindAt(info, old(f.View())).None? ==> !ok && bmp.bits[..] == old(bmp.bits[..])
    ensures KindAt(info, old(f.View())).Some? ==>
      Loaded(ok, f.View(), bmp.bits[..]) == LoadRows(KindAt(info, old(f.View())).value,
        PixelTape(info, old(f.View())), old(bmp.bits[..]), bmp.h, bmp.pitch, bmp.w)
  {
    hide RowMemory, RowTape, RowFlag, RowFits, Skip, DwordAt;
    var gmask := info.gmask;
    if info.biCompression == BI_BITFIELDS {
      ghost var t := f.View();
      SkipNothing(t);
      var rmask := GetLAt(f, t, 0);
      gmask := GetLAt(f, t, 4);
      var bmask := GetLAt(f, t, 8);
    }
    if KindOf(info, gmask) == None {
      return false;
    }
    var kind := KindOf(info, gmask).value;
    ghost var r := LoadRows(kind, f.View(), bmp.bits[..], bmp.h, bmp.pitch, bmp.w);
    var i, at := bmp.h - 1, (bmp.h - 1) * bmp.pitch;
    while i >= 0
      invariant -1 <= i < bmp.h && at == i * bmp.pitch && f.Valid()
      invariant RowsFit(kind, f.View(), bmp.bits.Length, i + 1, bmp.pitch, bmp.w)
      invariant r == LoadRows(kind, f.View(), bmp.bits[..], i + 1, bmp.pitch, bmp.w)
    {
      var flag := LoadRow(f, kind, bmp.bits, at, bmp.pitch, bmp.w);
      if flag == BmpErr {
        return false;
      }
      if flag == BmpEnd {
        return true;
      }
      i, at := i - 1, at - bmp.pitch;
    }
    ok := true;
  }

  // ---------- where a load ends ----------

  /** The tape where the `k`-th row of the file starts. */
  function TapeOfRow(kind: RowKind, t: Tape, k: nat, pitch: nat, w: nat): (r: Tape)
    requires t.Valid()
    ensures r.Valid()
  {
    if k == 0 then t else RowTape(kind, TapeOfRow(kind, t, k - 1, pitch, w), pitch, w)
  }

  ghost predicate FlagIs(kind: RowKind, t: Tape, k: int, pitch: nat, w: nat, flag: Flag)
    requires t.Valid()
  {
    0 <= k && RowFlag(kind, TapeOfRow(kind, t, k, pitch, w), w) == flag
  }

  /** All rows before the `k`-th one of the file went well and did not end the picture. */
  ghost predicate Reaches(kind: RowKind, t: Tape, k: nat, pitch: nat, w: nat)
    requires t.Valid()
  {
    forall j :: 0 <= j < k ==> FlagIs(kind, t, j, pitch, w, BmpLine)
  }

  lemma {:induction false} TapeOfNextRow(kind: RowKind, t: Tape, k: nat, pitch: nat, w: nat)
    requires t.Valid()
    ensures TapeOfRow(kind, t, k + 1, pitch, w) == TapeOfRow(kind, RowTape(kind, t, pitch, w), k, pitch, w)
  {
    hide RowTape;
    if k != 0 { TapeOfNextRow(kind, t, k - 1, pitch, w); }
  }

  lemma ReachesNext(kind: RowKind, t: Tape, k: nat, pitch: nat, w: nat)
    requires t.Valid() && 0 < k && Reaches(kind, t, k, pitch, w)
    ensures RowFlag(kind, t, w) == BmpLine
    ensures Reaches(kind, RowTape(kind, t, pitch, w), k - 1, pitch, w)
  {
    hide RowTape, RowFlag;
    var next := RowTape(kind, t, pitch, w);
    assert FlagIs(kind, t, 0, pitch, w, BmpLine);
    forall j | 0 <= j < k - 1 ensures FlagIs(kind, next, j, pitch, w, BmpLine) {
      TapeOfNextRow(kind, t, j, pitch, w);
      assert FlagIs(kind, t, j + 1, pitch, w, BmpLine);
    }
  }

  ghost predicate SameBelow(r: seq<byte>, m: seq<byte>, at: int) {
    |r| == |m| && 0 <= at <= |m| && r[..at] == m[..at]
  }

  lemma StillSameBelow(r: seq<byte>, m': seq<byte>, m: seq<byte>, low: int, at: int)
    requires SameBelow(r, m', low) && SameBelow(m', m, at) && low <= at
    ensures SameBelow(r, m, low)
  {
    assert m'[..low] == m'[..at][..low] && m[..low] == m[..at][..low];
  }

  lemma NotBelow(kind: RowKind, t: Tape, m: seq<byte>, at: nat, pitch: nat, w: nat)
    requires t.Valid() && RowFits(kind, t, |m|, at, pitch, w)
    ensures SameBelow(RowMemory(kind, t, m, at, pitch, w), m, at)
  {
    hide Rle8.Decode, Rle4.Decode, Rle4.PaintAt, WideRow;
    if kind.KindRle4? {
      Rle4.PaintNotBelow(m, at, Rle4.Decode(t, 0, w).cells);
    }
  }

  /** A row that does not go well ends the load with an error, one that ends the picture
      ends it with success. The rows below are not touched, nor is the rest read. */
  lemma {:induction false} StopsAt(kind: RowKind, t: Tape, m: seq<byte>, n: nat, pitch: nat, w: nat, k: nat)
    requires t.Valid() && RowsFit(kind, t, |m|, n, pitch, w)
    requires k < n && Reaches(kind, t, k, pitch, w) && !FlagIs(kind, t, k, pitch, w, BmpLine)
    ensures var r := LoadRows(kind, t, m, n, pitch, w);
            && (r.ok <==> FlagIs(kind, t, k, pitch, w, BmpEnd)) && r.tape == TapeOfRow(kind, t, k + 1, pitch, w)
            && SameBelow(r.m, m, (n - 1 - k) * pitch)
    decreases n
  {
    hide RowTape, RowFlag, RowFits, RowMemory, Reaches, SameBelow;
    var at := (n - 1) * pitch;
    var next, m' := RowTape(kind, t, pitch, w), RowMemory(kind, t, m, at, pitch, w);
    NotBelow(kind, t, m, at, pitch, w);
    if k > 0 {
      ReachesNext(kind, t, k, pitch, w);
      TapeOfNextRow(kind, t, k, pitch, w);
      TapeOfNextRow(kind, t, k - 1, pitch, w);
      StopsAt(kind, next, m', n - 1, pitch, w, k - 1);
      MulMonotone(pitch, n - 1 - k, n - 1);
      StillSameBelow(LoadRows(kind, next, m', n - 1, pitch, w).m, m', m, (n - 1 - k) * pitch, at);
    }
  }

  /** Without such a row the load succeeds behind its last row. */
  lemma {:induction false} ReadsAllRows(kind: RowKind, t: Tape, m: seq<byte>, n: nat, pitch: nat, w: nat)
    requires t.Valid() && RowsFit(kind, t, |m|, n, pitch, w) && Reaches(kind, t, n, pitch, w)
    ensures LoadRows(kind, t, m, n, pitch, w).ok
    ensures LoadRows(kind, t, m, n, pitch, w).tape == TapeOfRow(kind, t, n, pitch, w)
    decreases n
  {
    hide RowTape, RowFlag, RowFits, RowMemory, Reaches;
    if n != 0 {
      ReachesNext(kind, t, n, pitch, w);
      TapeOfNextRow(kind, t, n - 1, pitch, w);
      ReadsAllRows(kind, RowTape(kind, t, pitch, w), RowMemory(kind, t, m, (n - 1) * pitch, pitch, w), n - 1, pitch, w);
    }
  }

  // ---------- how much memory is enough ----------

  /** How far a row of the kind can be painted past its width on a broken stream. */
  function Overshoot(kind: RowKind): nat {
    match kind
    case KindRle8 => 255
    case KindRle4 => 32768
    case _ => 0
  }

  predicate PitchHolds(kind: RowKind, pitch: nat, w: nat) {
    match kind
    case Raw => true
    case High16(_) => 3 * w <= pitch
    case KindRle8 => w <= pitch
    case KindRle4 => Rle4.Bytes4(w) <= pitch
  }

  lemma RowAlwaysFits(kind: RowKind, t: Tape, size: nat, at: nat, pitch: nat, w: nat)
    requires t.Valid() && PitchHolds(kind, pitch, w) && at + pitch + Overshoot(kind) <= size
    ensures RowFits(kind, t, size, at, pitch, w)
  {
    hide Rle8.Decode, Rle4.Decode;
    match kind
    case KindRle8 => Rle8.ErrorIffPassed(t, 0, w);
    case KindRle4 => Rle4.ErrorIffPassed(t, 0, w);
    case _ =>
  }

  /** Whatever the stream holds, a caller who provides the rows and the room for one
      overshoot behind them is safe. */
  lemma {:induction false} RowsAlwaysFit(kind: RowKind, t: Tape, size: nat, n: nat, pitch: nat, w: nat)
    requires t.Valid() && PitchHolds(kind, pitch, w) && n * pitch + Overshoot(kind) <= size
    ensures RowsFit(kind, t, size, n, pitch, w)
    decreases n
  {
    hide RowFits, RowTape, RowFlag, PitchHolds, Overshoot;
    if n != 0 {
      MulStep(n, pitch);
      RowAlwaysFits(kind, t, size, (n - 1) * pitch, pitch, w);
      RowsAlwaysFit(kind, RowTape(kind, t, pitch, w), size, n - 1, pitch, w);
    }
  }
}
