/** Whole bitmap files: from the octets of a file to the pixels it loads to. */
module BmpFiles {
  import opened Bytes
  import opened MemStream
  import opened Reader
  import opened BmpFormat
  import opened BmpLoad
  import Rle4
  import Rle4Image
  import Rle8Image
  import BmpRoundTrip

  // ---------- headers and palette ----------

  /** The number that octets stand for, the low one first. */
  function Number(s: seq<byte>): nat {
    if s == [] then 0 else s[0] as int + 256 * Number(s[1..])
  }

  datatype Fields = Fields(width: nat, height: nat, bits: nat, compression: nat, entries: nat, entrySize: nat) {
    /** The depth in memory: pixels of 16 bits are widened. */
    function Depth(): nat {
      if bits == 16 then 24 else bits
    }

    /** The octets of a row in memory: whole double words. */
    function RowSize(): nat {
      (width * Depth() + 31) / 32 * 4
    }

    /** The octets of all rows in memory. */
    function Size(): nat {
      height * RowSize()
    }
  }

  /** The octets of a header, in the form of Windows or of OS/2, and its fields. Only up
      to 8 bits the room between the header and the pixels counts as a palette. In the
      form of OS/2 the pixels must not start inside the header. */
  ghost predicate Heads(s: seq<byte>, x: Fields) {
    && 26 <= |s| && s[0] == 66 && s[1] == 77 && Number(s[14..18]) == |s| - 14 < 0x8000_0000
    && (var gap := Number(s[10..14]) - |s|;
        x.entries == if x.bits <= 8 && gap > 0 then gap / (if |s| == 26 then 3 else 4) else 0)
    && if |s| == 26 then
         && x.width == Number(s[18..20]) && x.height == Number(s[20..22]) && x.bits == Number(s[24..26])
         && x.compression == 0 && x.entrySize == 3 && 26 <= Number(s[10..14])
       else
         && 54 <= |s| && x.width == Number(s[18..22]) && x.height == Number(s[22..26]) && x.bits == Number(s[28..30])
         && x.compression == Number(s[30..34]) && x.entrySize == 4
  }

  lemma NumberOf2(s: seq<byte>, k: nat)
    requires k + 2 <= |s|
    ensures Number(s[k..k + 2]) == s[k] as int + 256 * s[k + 1] as int < 0x1_0000
  {
    var a := s[k..k + 2];
    assert a[0] == s[k] && a[1..][0] == s[k + 1] && a[1..][1..] == [];
    assert Number(a[1..]) == s[k + 1];
  }

  lemma NumberOf4(s: seq<byte>, k: nat)
    requires k + 4 <= |s|
    ensures Number(s[k..k + 4]) == Number(s[k..k + 2]) + 0x1_0000 * Number(s[k + 2..k + 4]) < 0x1_0000_0000
  {
    var a := s[k..k + 4];
    assert a[1..][1..] == s[k + 2..k + 4] && a[0] == s[k] && a[1..][0] == s[k + 1];
    NumberOf2(s, k);
    NumberOf2(s, k + 2);
  }

  /** The reader's words and double words are these numbers. */
  lemma NumbersRead(t: Tape, s: seq<byte>, q: seq<byte>, k: nat)
    requires t.Valid() && t.Rest() == s + q
    ensures k + 2 <= |s| ==> WordAt(t, k) == Number(s[k..k + 2])
    ensures k + 4 <= |s| ==> DwordAt(t, k) == Number(s[k..k + 4]) < 0x1_0000_0000
  {
    hide Number;
    OctetsOfRest(t, s, q);
    assert forall i :: 0 <= i < |s| ==> OctetAt(t, i) == Octets(t, |s|)[i];
    if k + 2 <= |s| { NumberOf2(s, k); }
    if k + 4 <= |s| {
      NumberOf2(s, k + 2);
      NumberOf4(s, k);
    }
  }

  /** The pixels start at `off`, the header ends at `end`: what is counted in between. */
  lemma CountOfGap(off: nat, end: nat, size: nat)
    requires off < 0x1_0000_0000 && end < 0x1_0000_0000 && 3 <= size <= 4
    ensures off >= end ==> ColourCount(off - end, size) == (off - end) / size
    ensures off <= end && size == 4 ==> ColourCount(off - end, size) <= 0
  {
    var wrap := 0x1_0000_0000_0000_0000;
    if off >= end {
      ModUnique(off - end, wrap, 0, off - end);
      SmallIntFits((off - end) / size);
    } else if size == 4 {
      ModUnique(off - end, wrap, -1, off - end + wrap);
      var c := (end - off + 3) / 4;
      assert (off - end + wrap) / 4 == wrap / 4 - c;
      ModUnique(wrap / 4 - c + 0x8000_0000, 0x1_0000_0000, 0x4000_0000, 0x8000_0000 - c);
    }
  }

  /** What the fields are read as. */
  lemma HeaderOfOctets(t: Tape, s: seq<byte>, x: Fields, q: seq<byte>)
    requires t.Valid() && t.Rest() == s + q && Heads(s, x)
    ensures var r := HeaderAt(t);
            && r.Header? && (r.win <==> |s| > 26) && r.biSize == |s| - 14
            && r.info == InitInfo(x.width, x.height, x.bits, x.compression, 0x001f, 0x03e0, 0x7c00)
            && PaletteSize(r) == x.entries && r.rest.Rest() == q
  {
    hide Number, Skip, WordAt, DwordAt, ColourCount, Seek;
    NumberOf2(s, 0);
    NumbersRead(t, s, q, 0);
    NumbersRead(t, s, q, 10);
    NumbersRead(t, s, q, 14);
    NumbersRead(t, s, q, 18);
    NumbersRead(t, s, q, 20);
    NumbersRead(t, s, q, 22);
    NumbersRead(t, s, q, 24);
    NumbersRead(t, s, q, 28);
    NumbersRead(t, s, q, 30);
    SmallIntFits(|s| - 14);
    OctetsOfRest(t, s, q);
    CountOfGap(Number(s[10..14]), |s|, x.entrySize);
    if |s| > 26 { SeekOn(t, 54, |s| - 54); }
  }

  lemma SeekOn(t: Tape, m: nat, n: nat)
    requires t.Valid() && m + n <= t.Room()
    ensures Seek(Skip(t, m), n, SeekCur) == Skip(t, m + n)
  {}

  /** Other files are refused: without the two letters, or with another size of header. */
  lemma RefusedIff(t: Tape, s: seq<byte>, q: seq<byte>)
    requires t.Valid() && t.Rest() == s + q && |s| == 18
    ensures var size := Number(s[14..18]);
            HeaderAt(t).BadHeader? <==> !(s[0] == 66 && s[1] == 77 && (size == 12 || 40 <= size < 0x8000_0000))
  {
    hide Number, Skip, WordAt, DwordAt, ColourCount, Seek;
    NumberOf2(s, 0);
    NumbersRead(t, s, q, 0);
    NumbersRead(t, s, q, 14);
    var size := Number(s[14..18]);
    if size < 0x8000_0000 {
      SmallIntFits(size);
    } else {
      ModUnique(size + 0x8000_0000, 0x1_0000_0000, 1, size - 0x8000_0000);
    }
  }

  /** The octets of the palette: blue, green and red, and a fourth one in a Windows file. */
  ghost predicate IsPalette(p: seq<byte>, x: Fields) {
    |p| == x.entries * x.entrySize
  }

  ghost predicate EntryIs(c: Rgb, p: seq<byte>, x: Fields, i: int) {
    && 0 <= i && i * x.entrySize + 3 <= |p|
    && c.b == p[i * x.entrySize] && c.g == p[i * x.entrySize + 1] && c.r == p[i * x.entrySize + 2]
  }

  ghost predicate Coloured(pal: seq<Rgb>, p: seq<byte>, x: Fields) {
    x.entries <= |pal| && forall i :: 0 <= i < x.entries ==> EntryIs(pal[i], p, x, i)
  }

  lemma PaletteOfOctets(t: Tape, s: seq<byte>, p: seq<byte>, x: Fields, q: seq<byte>, i: nat)
    requires t.Valid() && t.Rest() == p + q && Heads(s, x) && IsPalette(p, x) && i < x.entries
    ensures EntryIs(EntryAt(t, |s| > 26, i), p, x, i)
  {
    hide Number, Heads, OctetAt;
    OctetsOfRest(t, p, q);
    assert forall k :: 0 <= k < |p| ==> OctetAt(t, k) == Octets(t, |p|)[k];
    SizeOfEntry(s, x, p);
    PlaceOfEntry(s, x, i);
  }

  lemma PlaceOfEntry(s: seq<byte>, x: Fields, i: nat)
    requires Heads(s, x)
    ensures i * x.entrySize == EntryOffset(|s| > 26, i) && 3 <= x.entrySize
  {
    hide Number;
  }

  /** Headers and palette: what the bitmap, the palette and the stream are afterwards. */
  method Open(f: MemRW, bmp: MyBitmap, pal: array<Rgb>, ghost s: seq<byte>, ghost p: seq<byte>, ghost x: Fields, ghost q: seq<byte>)
    returns (info: Option<InitInfo>)
    requires f.Valid() && f.View().Rest() == s + (p + q)
    requires Heads(s, x) && IsPalette(p, x) && x.entries <= pal.Length
    modifies f`here, pal, bmp`w, bmp`h, bmp`depth, bmp`pitch, bmp`frames, bmp`size
    ensures info == Some(InitInfo(x.width, x.height, x.bits, x.compression, 0x001f, 0x03e0, 0x7c00))
    ensures bmp.w == x.width && bmp.h == x.height && bmp.depth == x.Depth() && bmp.pitch == x.RowSize()
    ensures Coloured(pal[..], p, x)
    ensures f.Valid() && f.View().Rest() == q
  {
    hide HeaderAt, Heads, EntryAt, Skip, Number;
    ghost var t := f.View();
    HeaderOfOctets(t, s, x, p + q);
    ghost var r := HeaderAt(t).rest;
    ghost var win := HeaderAt(t).win;
    OctetsOfRest(r, p, q);
    SizeOfEntry(s, x, p);
    forall i | 0 <= i < x.entries ensures EntryIs(EntryAt(r, win, i), p, x, i) {
      PaletteOfOctets(r, s, p, x, q, i);
    }
    info := InitBmp(f, bmp, pal);
  }

  lemma SizeOfEntry(s: seq<byte>, x: Fields, p: seq<byte>)
    requires Heads(s, x) && IsPalette(p, x)
    ensures |p| == EntryOffset(|s| > 26, x.entries)
  {
    hide Number;
  }

  // ---------- rows that are not compressed ----------

  /** A pixel of 5, 5 and 5 bits in three octets, or one of 5, 6 and 5 bits. */
  ghost predicate Shows(m: seq<byte>, a: nat, v: nat, sixGreen: bool) {
    && a + 3 <= |m| && m[a] == v % 32 * 8
    && m[a + 1] == (if sixGreen then v / 32 % 64 * 4 else v / 32 % 32 * 8)
    && m[a + 2] == (if sixGreen then v / 2048 % 32 * 8 else v / 1024 % 32 * 8)
  }

  /** The octets of a row in the file: words, an even number of them, if a pixel has 16
      bits, and otherwise as many as in memory. */
  function Stride(bits: nat, pitch: nat, w: nat): nat {
    if bits == 16 then 2 * (w + w % 2) else pitch
  }

  /** A row of the file, and where in memory it shows. */
  ghost predicate RowShown(m: seq<byte>, at: nat, row: seq<byte>, bits: nat, w: nat, sixGreen: bool) {
    if bits == 16 then
      |row| >= 2 * w && forall x: nat :: x < w ==> Shows(m, at + 3 * x, Number(row[2 * x..2 * x + 2]), sixGreen)
    else at + |row| <= |m| && m[at..at + |row|] == row
  }

  /** Rows of the file as they follow each other. */
  function Joined(rows: seq<seq<byte>>): seq<byte> {
    if rows == [] then [] else rows[0] + Joined(rows[1..])
  }

  /** Memory is the same from address `at` on. */
  ghost predicate SameBehind(r: seq<byte>, m: seq<byte>, at: int) {
    |r| == |m| && 0 <= at <= |m| && r[at..] == m[at..]
  }

  ghost predicate AreRows(rows: seq<seq<byte>>, n: nat, stride: nat) {
    |rows| == n && forall k :: 0 <= k < n ==> |rows[k]| == stride
  }

  /** Row `i` of the bitmap is the row of the file that is `i`-th from the end. */
  ghost predicate ShownAt(m: seq<byte>, rows: seq<seq<byte>>, pitch: nat, bits: nat, w: nat, sixGreen: bool, i: int) {
    0 <= i < |rows| && RowShown(m, i * pitch, rows[|rows| - 1 - i], bits, w, sixGreen)
  }

  ghost predicate AllShown(m: seq<byte>, rows: seq<seq<byte>>, pitch: nat, bits: nat, w: nat, sixGreen: bool) {
    forall i :: 0 <= i < |rows| ==> ShownAt(m, rows, pitch, bits, w, sixGreen, i)
  }

  lemma {:induction false} WideRowAt(t: Tape, n: nat, gmask: nat, x: nat)
    requires t.Valid() && x < n
    ensures Shows(WideRow(t, n, gmask), 3 * x, WordAt(t, 2 * x), gmask != 0x03e0)
  {
    hide WordAt;
    var init, last := WideRow(t, n - 1, gmask), Wide(WordAt(t, 2 * (n - 1)), gmask);
    if x < n - 1 {
      WideRowAt(t, n - 1, gmask, x);
      assert (init + last)[3 * x] == init[3 * x];
    } else {
      assert (init + last)[3 * x] == last[0];
    }
  }

  lemma ShowsIn(m: seq<byte>, at: nat, s: seq<byte>, a: nat, v: nat, sixGreen: bool)
    requires at + |s| <= |m| && Shows(s, a, v, sixGreen)
    ensures Shows(Splice(m, at, s), at + a, v, sixGreen)
  {}

  /** How the reader takes such rows. */
  function KindFor(bits: nat, gmask: nat): RowKind {
    if bits == 16 then High16(gmask) else Raw
  }

  lemma WideRowShown(t: Tape, m: seq<byte>, at: nat, row: seq<byte>, q: seq<byte>, pitch: nat, w: nat, gmask: nat)
    requires t.Valid() && t.Rest() == row + q && |row| == Stride(16, pitch, w) && at + 3 * w <= |m|
    ensures RowFits(High16(gmask), t, |m|, at, pitch, w) && RowTape(High16(gmask), t, pitch, w).Rest() == q
    ensures RowShown(RowMemory(High16(gmask), t, m, at, pitch, w), at, row, 16, w, gmask != 0x03e0)
  {
    hide Number, Shows, Skip, WordAt, DwordAt;
    OctetsOfRest(t, row, q);
    forall x: nat | x < w
      ensures Shows(Splice(m, at, WideRow(t, w, gmask)), at + 3 * x, Number(row[2 * x..2 * x + 2]), gmask != 0x03e0)
    {
      WideRowAt(t, w, gmask, x);
      NumbersRead(t, row, q, 2 * x);
      ShowsIn(m, at, WideRow(t, w, gmask), 3 * x, WordAt(t, 2 * x), gmask != 0x03e0);
    }
  }

  lemma BehindSplice(m: seq<byte>, at: nat, s: seq<byte>, k: nat)
    requires at + |s| <= k <= |m|
    ensures Splice(m, at, s)[k..] == m[k..] && Splice(m, at, s)[at..at + |s|] == s
  {}

  /** One row read: it shows, and memory behind it is left alone. */
  lemma OneRow(t: Tape, m: seq<byte>, at: nat, row: seq<byte>, q: seq<byte>, bits: nat, pitch: nat, w: nat, gmask: nat)
    requires t.Valid() && t.Rest() == row + q && |row| == Stride(bits, pitch, w) && at + pitch <= |m|
    requires bits == 16 ==> 3 * w <= pitch
    ensures RowFits(KindFor(bits, gmask), t, |m|, at, pitch, w) && RowTape(KindFor(bits, gmask), t, pitch, w).Rest() == q
    ensures RowShown(RowMemory(KindFor(bits, gmask), t, m, at, pitch, w), at, row, bits, w, gmask != 0x03e0)
    ensures SameBehind(RowMemory(KindFor(bits, gmask), t, m, at, pitch, w), m, at + pitch)
  {
    hide RowTape, Splice, Number;
    if bits == 16 {
      WideRowShown(t, m, at, row, q, pitch, w, gmask);
      BehindSplice(m, at, WideRow(t, w, gmask), at + pitch);
    } else {
      BmpRoundTrip.RawRow(t, m, at, row, q, w);
      BehindSplice(m, at, row, at + pitch);
    }
  }

  lemma ShownAbove(r: seq<byte>, m: seq<byte>, at: nat, row: seq<byte>, bits: nat, w: nat, sixGreen: bool)
    requires |r| == |m| && at <= |m| && r[at..] == m[at..] && RowShown(m, at, row, bits, w, sixGreen)
    ensures RowShown(r, at, row, bits, w, sixGreen)
  {
    hide Number;
    forall k | at <= k < |m| ensures r[k] == m[k] {
      assert r[k] == r[at..][k - at] == m[at..][k - at];
    }
  }

  lemma AboveAgain(r: seq<byte>, m': seq<byte>, m: seq<byte>, at: nat, pitch: nat)
    requires at + pitch <= |m| && |r| == |m'| == |m|
    requires r[at..] == m'[at..] && m'[at + pitch..] == m[at + pitch..]
    ensures r[at + pitch..] == m[at + pitch..]
  {
    assert r[at + pitch..] == r[at..][pitch..];
    assert m'[at + pitch..] == m'[at..][pitch..];
  }

  lemma ShownFurtherDown(m: seq<byte>, rows: seq<seq<byte>>, pitch: nat, bits: nat, w: nat, sixGreen: bool, i: nat)
    requires rows != [] && i < |rows| - 1 && AllShown(m, rows[1..], pitch, bits, w, sixGreen)
    ensures ShownAt(m, rows, pitch, bits, w, sixGreen, i)
  {
    hide RowShown;
    assert ShownAt(m, rows[1..], pitch, bits, w, sixGreen, i);
  }

  lemma ShownFirst(m: seq<byte>, rows: seq<seq<byte>>, pitch: nat, bits: nat, w: nat, sixGreen: bool)
    requires rows != [] && RowShown(m, (|rows| - 1) * pitch, rows[0], bits, w, sixGreen)
    ensures ShownAt(m, rows, pitch, bits, w, sixGreen, |rows| - 1)
  {
    hide RowShown;
  }

  /** The top row in front of what holds for the rows below it. */
  lemma RowOnTop(r: seq<byte>, m': seq<byte>, m: seq<byte>, rows: seq<seq<byte>>, pitch: nat, at: nat, bits: nat, w: nat, sixGreen: bool)
    requires rows != [] && at == (|rows| - 1) * pitch && AllShown(r, rows[1..], pitch, bits, w, sixGreen)
    requires SameBehind(r, m', at) && SameBehind(m', m, at + pitch) && RowShown(m', at, rows[0], bits, w, sixGreen)
    ensures SameBehind(r, m, at + pitch) && AllShown(r, rows, pitch, bits, w, sixGreen)
  {
    hide RowShown, ShownAt;
    AboveAgain(r, m', m, at, pitch);
    forall i | 0 <= i < |rows| ensures ShownAt(r, rows, pitch, bits, w, sixGreen, i) {
      if i < |rows| - 1 {
        ShownFurtherDown(r, rows, pitch, bits, w, sixGreen, i);
      } else {
        ShownAbove(r, m', at, rows[0], bits, w, sixGreen);
        ShownFirst(r, rows, pitch, bits, w, sixGreen);
      }
    }
  }

  lemma FirstOfRows(rows: seq<seq<byte>>, n: nat, stride: nat)
    requires AreRows(rows, n, stride) && 0 < n
    ensures |rows| == n && |rows[0]| == stride && AreRows(rows[1..], n - 1, stride)
    ensures Joined(rows) == rows[0] + Joined(rows[1..])
  {}

  lemma NoRowsLeft(rows: seq<seq<byte>>, stride: nat)
    requires AreRows(rows, 0, stride)
    ensures rows == [] && Joined(rows) == []
  {}

  lemma NoRowsToLoad(kind: RowKind, t: Tape, m: seq<byte>, pitch: nat, w: nat)
    requires t.Valid()
    ensures RowsFit(kind, t, |m|, 0, pitch, w) && LoadRows(kind, t, m, 0, pitch, w) == Loaded(true, t, m)
  {}

  /** No such row ends the picture. */
  lemma RowThenRows(bits: nat, gmask: nat, t: Tape, m: seq<byte>, n: nat, pitch: nat, w: nat)
    requires t.Valid() && 0 < n && RowFits(KindFor(bits, gmask), t, |m|, (n - 1) * pitch, pitch, w)
    requires RowsFit(KindFor(bits, gmask), RowTape(KindFor(bits, gmask), t, pitch, w), |m|, n - 1, pitch, w)
    ensures RowsFit(KindFor(bits, gmask), t, |m|, n, pitch, w)
    ensures LoadRows(KindFor(bits, gmask), t, m, n, pitch, w)
         == LoadRows(KindFor(bits, gmask), RowTape(KindFor(bits, gmask), t, pitch, w),
              RowMemory(KindFor(bits, gmask), t, m, (n - 1) * pitch, pitch, w), n - 1, pitch, w)
  {
    hide RowFits, RowTape, RowMemory;
  }

  lemma NoRowsToShow(m: seq<byte>, pitch: nat, bits: nat, w: nat, sixGreen: bool)
    ensures AllShown(m, [], pitch, bits, w, sixGreen) && SameBehind(m, m, 0)
  {}

  /** Rows fill bottom-up, and memory behind the last row is left alone. */
  lemma {:induction false} RowsShown(t: Tape, m: seq<byte>, rows: seq<seq<byte>>, n: nat, bits: nat, pitch: nat, w: nat, gmask: nat, q: seq<byte>)
    requires t.Valid() && AreRows(rows, n, Stride(bits, pitch, w)) && n * pitch <= |m| && (bits == 16 ==> 3 * w <= pitch)
    requires t.Rest() == Joined(rows) + q
    ensures RowsFit(KindFor(bits, gmask), t, |m|, n, pitch, w)
    ensures var r := LoadRows(KindFor(bits, gmask), t, m, n, pitch, w);
            && r.ok && r.tape.Rest() == q && SameBehind(r.m, m, n * pitch)
            && AllShown(r.m, rows, pitch, bits, w, gmask != 0x03e0)
    decreases n
  {
    hide RowShown, AllShown, SameBehind, Stride, RowFits, RowTape, RowMemory, KindFor, AreRows, Joined, LoadRows, RowsFit;
    var kind := KindFor(bits, gmask);
    if n == 0 {
      NoRowsLeft(rows, Stride(bits, pitch, w));
      assert Joined(rows) + q == q && n * pitch == 0;
      NoRowsToShow(m, pitch, bits, w, gmask != 0x03e0);
      NoRowsToLoad(kind, t, m, pitch, w);
    } else {
      MulStep(n, pitch);
      FirstOfRows(rows, n, Stride(bits, pitch, w));
      var at := (n - 1) * pitch;
      ConcatAssoc(rows[0], Joined(rows[1..]), q);
      OneRow(t, m, at, rows[0], Joined(rows[1..]) + q, bits, pitch, w, gmask);
      var m', next := RowMemory(kind, t, m, at, pitch, w), RowTape(kind, t, pitch, w);
      RowsShown(next, m', rows[1..], n - 1, bits, pitch, w, gmask, q);
      RowThenRows(bits, gmask, t, m, n, pitch, w);
      RowOnTop(LoadRows(kind, next, m', n - 1, pitch, w).m, m', m, rows, pitch, at, bits, w, gmask != 0x03e0);
    }
  }

  // ---------- whole files ----------

  /** Rows have room for their pixels from 8, or 4, bits on. */
  lemma RowsHaveRoom(x: Fields)
    ensures 8 <= x.bits ==> x.width <= x.RowSize()
    ensures 4 <= x.bits ==> Rle4.Bytes4(x.width) <= x.RowSize()
    ensures x.bits == 16 ==> 3 * x.width <= x.RowSize()
  {
    if 8 <= x.bits { MulMonotone(x.width, 8, x.Depth()); }
    if 4 <= x.bits { MulMonotone(x.width, 4, x.Depth()); }
  }

  /** A file of rows that are not compressed. Words are of 5, 5 and 5 bits unless masks
      stand before the rows, and the one for green does not say so. */
  method LoadPlain(f: MemRW, bmp: MyBitmap, pal: array<Rgb>, bits: array<byte>, ghost s: seq<byte>, ghost p: seq<byte>,
                   ghost x: Fields, ghost masks: seq<byte>, ghost rows: seq<seq<byte>>, ghost q: seq<byte>) returns (ok: bool)
    requires f.Valid() && f.View().Rest() == s + (p + (masks + (Joined(rows) + q)))
    requires Heads(s, x) && IsPalette(p, x) && x.entries <= pal.Length
    requires (x.compression == 0 && masks == []) || (x.compression == 3 && |masks| == 12)
    requires AreRows(rows, x.height, Stride(x.bits, x.RowSize(), x.width))
    requires bits != f.mem && x.Size() <= bits.Length
    modifies f`here, bmp, pal, bits
    ensures ok && bmp.bits == bits && bmp.w == x.width && bmp.h == x.height && bmp.depth == x.Depth() && bmp.pitch == x.RowSize()
    ensures Coloured(pal[..], p, x)
    ensures AllShown(bits[..], rows, bmp.pitch, x.bits, bmp.w, x.compression == 3 && Number(masks[4..8]) != 0x03e0)
    ensures SameBehind(bits[..], old(bits[..]), x.Size())
    ensures f.Valid() && f.View().Rest() == q
  {
    hide Heads, Number, RowsFit, LoadRows, ShownAt, DwordAt, Skip, Stride;
    var info := Open(f, bmp, pal, s, p, x, masks + (Joined(rows) + q));
    bmp.bits := bits;
    ghost var t := f.View();
    RowsHaveRoom(x);
    NumbersRead(t, masks, Joined(rows) + q, 4);
    OctetsOfRest(t, masks, Joined(rows) + q);
    assert masks == [] ==> masks + (Joined(rows) + q) == Joined(rows) + q;
    ghost var gmask := if x.compression == 3 then DwordAt(t, 4) else 0x03e0;
    RowsShown(PixelTape(info.value, t), bits[..], rows, x.height, x.bits, x.RowSize(), x.width, gmask, q);
    ok := LoadBmp(f, info.value, bmp);
  }

  /** A file of 8-bit run-length lines: each pixel is what its line says, if it says
      anything, and otherwise what was there. */
  method LoadRle8(f: MemRW, bmp: MyBitmap, pal: array<Rgb>, bits: array<byte>, ghost s: seq<byte>, ghost p: seq<byte>,
                  ghost x: Fields, ghost lines: seq<Rle8Image.Line>, ghost q: seq<byte>) returns (ok: bool)
    requires Heads(s, x) && IsPalette(p, x) && x.entries <= pal.Length && x.compression == 1
    requires Rle8Image.IsPicture(lines, x.height, x.width) && x.width <= x.RowSize()
    requires f.Valid() && f.View().Rest() == s + (p + (Rle8Image.PictureBytes(lines, x.height, x.width) + q))
    requires bits != f.mem && x.Size() <= bits.Length
    modifies f`here, bmp, pal, bits
    ensures ok && bmp.bits == bits && bmp.w == x.width && bmp.h == x.height && bmp.depth == x.Depth() && bmp.pitch == x.RowSize()
    ensures Coloured(pal[..], p, x)
    ensures forall i, k :: 0 <= i < x.height && 0 <= k < x.RowSize() ==>
      Pixel8Shown(bits[..], old(bits[..]), lines, x.height, x.RowSize(), i, k)
    ensures SameBehind(bits[..], old(bits[..]), x.Size())
    ensures f.Valid() && f.View().Rest() == q
  {
    hide Heads, Number, RowsFit, LoadRows, Rle8Image.PictureBytes, Rle8Image.PaintLines, Rle8Image.IsPicture, Rle8Image.PixelOf;
    ghost var m := bits[..];
    var info := Open(f, bmp, pal, s, p, x, Rle8Image.PictureBytes(lines, x.height, x.width) + q);
    bmp.bits := bits;
    Rle8Image.PictureLoads(f.View(), m, lines, x.height, x.RowSize(), x.width, q);
    ok := LoadBmp(f, info.value, bmp);
    Picture8(m, lines, x.height, x.RowSize(), x.width);
  }

  ghost predicate Pixel8Shown(r: seq<byte>, m: seq<byte>, lines: seq<Rle8Image.Line>, n: nat, pitch: nat, i: int, x: int) {
    && 0 <= i < n && 0 <= x && i * pitch + x < |m| && |r| == |m|
    && r[i * pitch + x] == Rle8Image.PixelOf(lines, n, i, x).GetOr(m[i * pitch + x])
  }

  lemma Picture8(m: seq<byte>, lines: seq<Rle8Image.Line>, n: nat, pitch: nat, w: nat)
    requires Rle8Image.IsPicture(lines, n, w) && w <= pitch && n * pitch <= |m|
    ensures var r := Rle8Image.PaintLines(m, lines, n, pitch, w);
            && (forall i, x :: 0 <= i < n && 0 <= x < pitch ==> Pixel8Shown(r, m, lines, n, pitch, i, x))
            && SameBehind(r, m, n * pitch)
  {
    hide Rle8Image.PaintLines, Rle8Image.IsPicture, Rle8Image.PixelOf;
    forall i, x | 0 <= i < n && 0 <= x < pitch
      ensures Pixel8Shown(Rle8Image.PaintLines(m, lines, n, pitch, w), m, lines, n, pitch, i, x)
    {
      Rle8Image.PictureAt(m, lines, n, pitch, w, i, x);
    }
    forall k | n * pitch <= k < |m| ensures Rle8Image.PaintLines(m, lines, n, pitch, w)[k] == m[k] {
      Rle8Image.PictureAbove(m, lines, n, pitch, w, k);
    }
  }

  /** A file of 4-bit run-length lines: each octet is that of the two pixels of its line,
      if the line reaches it, and otherwise what was there. */
  method LoadRle4(f: MemRW, bmp: MyBitmap, pal: array<Rgb>, bits: array<byte>, ghost s: seq<byte>, ghost p: seq<byte>,
                  ghost x: Fields, ghost lines: seq<Rle4Image.Line>, ghost q: seq<byte>) returns (ok: bool)
    requires Heads(s, x) && IsPalette(p, x) && x.entries <= pal.Length && x.compression == 2
    requires Rle4Image.IsPicture(lines, x.height, x.width) && Rle4.Bytes4(x.width) <= x.RowSize()
    requires f.Valid() && f.View().Rest() == s + (p + (Rle4Image.PictureBytes(lines, x.height, x.width) + q))
    requires bits != f.mem && x.Size() <= bits.Length
    modifies f`here, bmp, pal, bits
    ensures ok && bmp.bits == bits && bmp.w == x.width && bmp.h == x.height && bmp.depth == x.Depth() && bmp.pitch == x.RowSize()
    ensures Coloured(pal[..], p, x)
    ensures forall i, k :: 0 <= i < x.height && 0 <= k < x.RowSize() ==>
      Octet4Shown(bits[..], old(bits[..]), lines, x.height, x.RowSize(), i, k)
    ensures SameBehind(bits[..], old(bits[..]), x.Size())
    ensures f.Valid() && f.View().Rest() == q
  {
    hide Heads, Number, Rle4.Bytes4, Coloured, IsPalette, RowsFit, LoadRows, Rle4Image.PictureBytes, Rle4Image.PaintLines, Rle4Image.IsPicture, Rle4Image.OctetOf;
    ghost var m := bits[..];
    var info := Open(f, bmp, pal, s, p, x, Rle4Image.PictureBytes(lines, x.height, x.width) + q);
    bmp.bits := bits;
    Rle4Image.PictureLoads(f.View(), m, lines, x.height, x.RowSize(), x.width, q);
    ok := LoadBmp(f, info.value, bmp);
    Picture4(m, lines, x.height, x.RowSize(), x.width);
  }

  ghost predicate Octet4Shown(r: seq<byte>, m: seq<byte>, lines: seq<Rle4Image.Line>, n: nat, pitch: nat, i: int, x: int) {
    && 0 <= i < n && 0 <= x && i * pitch + x < |m| && |r| == |m|
    && r[i * pitch + x] == Rle4Image.OctetOf(lines, n, i, x).GetOr(m[i * pitch + x])
  }

  lemma Picture4(m: seq<byte>, lines: seq<Rle4Image.Line>, n: nat, pitch: nat, w: nat)
    requires Rle4Image.IsPicture(lines, n, w) && Rle4.Bytes4(w) <= pitch && n * pitch <= |m|
    ensures var r := Rle4Image.PaintLines(m, lines, n, pitch, w);
            && (forall i, x :: 0 <= i < n && 0 <= x < pitch ==> Octet4Shown(r, m, lines, n, pitch, i, x))
            && SameBehind(r, m, n * pitch)
  {
    hide Rle4Image.PaintLines, Rle4Image.IsPicture, Rle4Image.OctetOf;
    forall i, x | 0 <= i < n && 0 <= x < pitch
      ensures Octet4Shown(Rle4Image.PaintLines(m, lines, n, pitch, w), m, lines, n, pitch, i, x)
    {
      Rle4Image.PictureAt(m, lines, n, pitch, w, i, x);
    }
    forall k | n * pitch <= k < |m| ensures Rle4Image.PaintLines(m, lines, n, pitch, w)[k] == m[k] {
      Rle4Image.PictureAbove(m, lines, n, pitch, w, k);
    }
  }

  /** Any other compression is refused, and no pixel is touched. */
  method LoadOther(f: MemRW, bmp: MyBitmap, pal: array<Rgb>, bits: array<byte>, ghost s: seq<byte>, ghost p: seq<byte>,
                   ghost x: Fields, ghost q: seq<byte>) returns (ok: bool)
    requires Heads(s, x) && IsPalette(p, x) && x.entries <= pal.Length && 4 <= x.compression
    requires f.Valid() && f.View().Rest() == s + (p + q) && bits != f.mem
    modifies f`here, bmp, pal, bits
    ensures !ok && bits[..] == old(bits[..]) && Coloured(pal[..], p, x)
    ensures f.Valid()
  {
    hide Heads, Number;
    var info := Open(f, bmp, pal, s, p, x, q);
    bmp.bits := bits;
    ok := LoadBmp(f, info.value, bmp);
  }

  // ---------- saved files ----------

  lemma NumbersWritten(v: nat)
    ensures v < 0x1_0000 ==> Number(Le2(v)) == v
    ensures v < 0x1_0000_0000 ==> Number(Le4(v)) == v
  {
    hide Number;
    NumberOf2(Le2(v), 0);
    assert Le2(v)[0..2] == Le2(v);
    if v < 0x1_0000_0000 {
      BmpRoundTrip.Le4Digits(v);
      NumberOf4(Le4(v), 0);
      NumberOf2(Le4(v), 0);
      NumberOf2(Le4(v), 2);
      assert Le4(v)[0..4] == Le4(v);
    }
  }

  /** The header of a saved file, field by field. */
  lemma SavedHeads(w: nat, h: nat, depth: nat)
    requires w < 0x1_0000_0000 && h < 0x1_0000_0000
    ensures var n := if depth == 4 then 16 else if depth == 8 then 256 else 0;
            Heads(HeaderBytes(w, h, depth), Fields(w, h, FileDepth(depth), 0, n, 4))
  {
    hide HeaderBytes, Le2, Le4, FileSize, Number;
    var s := HeaderBytes(w, h, depth);
    BmpRoundTrip.HeaderFields(w, h, depth);
    NumberOf2(s, 0);
    NumbersWritten(MAGIC);
    NumbersWritten(OffBits(depth));
    NumbersWritten(WININFOHEADERSIZE);
    NumbersWritten(w);
    NumbersWritten(h);
    NumbersWritten(FileDepth(depth));
    NumbersWritten(BI_RGB);
  }

  /** The other fields. Octets 2 to 5 hold the length of the whole file. */
  lemma SavedOtherFields(w: nat, h: nat, depth: nat)
    requires FileSize(w, h, depth) < 0x1_0000_0000
    ensures var s, n := HeaderBytes(w, h, depth), if depth == 4 then 16 else if depth == 8 then 256 else 0;
            && Number(s[2..6]) == 54 + 4 * n + h * ScanlineBytes(w, depth)
            && Number(s[6..8]) == Number(s[8..10]) == 0 && Number(s[26..28]) == 1
            && Number(s[34..38]) == h * ScanlineBytes(w, depth)
            && Number(s[38..42]) == Number(s[42..46]) == 0 && Number(s[46..50]) == Number(s[50..54]) == n
  {
    hide Le2, Le4, Number, ScanlineBytes, HeaderBytes;
    OtherFields(w, h, depth);
    NumbersWritten(FileSize(w, h, depth));
    NumbersWritten(ImageSize(w, h, depth));
    NumbersWritten(Colours(depth));
    NumbersWritten(0);
    NumbersWritten(1);
  }

  lemma OtherFields(w: nat, h: nat, depth: nat)
    ensures var s := HeaderBytes(w, h, depth);
            && s[2..6] == Le4(FileSize(w, h, depth)) && s[6..8] == Le2(0) && s[8..10] == Le2(0)
            && s[26..28] == Le2(1) && s[34..38] == Le4(ImageSize(w, h, depth))
            && s[38..42] == Le4(0) && s[42..46] == Le4(0)
            && s[46..50] == Le4(Colours(depth)) && s[50..54] == Le4(Colours(depth))
  {
    hide Le2, Le4, FileSize, ImageSize, OffBits, FileDepth, Colours;
  }
}
