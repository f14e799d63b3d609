/** Saving again what was loaded. */
module BmpResave {
  import opened Bytes
  import opened BmpFormat
  import opened BmpRoundTrip
  import Rle4

  /** The memory that loading the saved bitmap leaves. */
  ghost predicate LoadedFrom(l: seq<byte>, m: seq<byte>, w: nat, h: nat, pitch: nat, depth: nat)
    requires Readable(m, w, h, pitch, depth)
  {
    var p := ScanlineBytes(w, depth);
    |l| == h * p && forall i :: 0 <= i < h ==>
      HasRow(m, i, pitch, RowNeeds(w, depth)) && HoldsRow(l, i, p, RowOf(m, w, pitch, depth, i))
  }

  /** Saving it again is possible and gives the same rows. */
  ghost predicate SavedAgain(l: seq<byte>, m: seq<byte>, w: nat, h: nat, pitch: nat, depth: nat)
    requires Readable(m, w, h, pitch, depth)
  {
    var p, d := ScanlineBytes(w, depth), FileDepth(depth);
    Readable(l, w, h, p, d) && RowsBytes(l, w, p, d, h) == RowsBytes(m, w, pitch, depth, h)
  }

  // ---------- 8 and 24 bits ----------

  lemma SameSizes(w: nat, depth: nat)
    ensures FileDepth(FileDepth(depth)) == FileDepth(depth) && RowSize(w, FileDepth(depth)) == RowSize(w, depth)
    ensures ScanlineBytes(w, FileDepth(depth)) == ScanlineBytes(w, depth)
    ensures depth != 4 ==> RowNeeds(w, FileDepth(depth)) == RowSize(w, depth)
  {}

  /** A row in the file's form is its own form in the file. */
  lemma RowSavedAgain(row: seq<byte>, w: nat, depth: nat, rest: seq<byte>)
    requires depth != 4 && RowNeeds(w, depth) <= |row|
    ensures RowNeeds(w, FileDepth(depth)) <= |FileRow(row, w, depth) + rest|
    ensures FileRow(FileRow(row, w, depth) + rest, w, FileDepth(depth)) == FileRow(row, w, depth)
  {
    hide RowPixels;
    PitchIsScanlineBytes(w, depth);
    SameSizes(w, depth);
    var r := FileRow(row, w, depth) + rest;
    assert r[..RowSize(w, depth)] == RowPixels(row, w, depth);
    if depth == 8 {
      EightBitRow(r, w);
    } else {
      TrueColourKept(r, w);
    }
  }

  lemma EightBitRow(row: seq<byte>, w: nat)
    requires w <= |row|
    ensures RowNeeds(w, 8) == w && RowPixels(row, w, 8) == row[..w]
  {}

  lemma LoadedRowSavedAgain(l: seq<byte>, m: seq<byte>, w: nat, h: nat, pitch: nat, depth: nat, i: nat)
    requires Readable(m, w, h, pitch, depth) && LoadedFrom(l, m, w, h, pitch, depth) && depth != 4 && i < h
    ensures HasRow(l, i, ScanlineBytes(w, depth), RowNeeds(w, FileDepth(depth)))
    ensures HasRow(m, i, pitch, RowNeeds(w, depth))
    ensures RowOf(l, w, ScanlineBytes(w, depth), FileDepth(depth), i) == RowOf(m, w, pitch, depth, i)
  {
    hide FileRow, ScanlineBytes, RowNeeds, RowSize, FileDepth;
    var p := ScanlineBytes(w, depth);
    var row := RowOf(m, w, pitch, depth, i);
    PitchIsScanlineBytes(w, depth);
    SameSizes(w, depth);
    assert HoldsRow(l, i, p, row);
    assert l[i * p..] == row + l[i * p + p..];
    RowSavedAgain(m[i * pitch..], w, depth, l[i * p + p..]);
  }

  lemma {:induction false} RowsSavedAgain(l: seq<byte>, m: seq<byte>, w: nat, h: nat, pitch: nat, depth: nat, n: nat)
    requires Readable(m, w, h, pitch, depth) && LoadedFrom(l, m, w, h, pitch, depth) && depth != 4 && n <= h
    requires Readable(l, w, h, ScanlineBytes(w, depth), FileDepth(depth))
    ensures RowsBytes(l, w, ScanlineBytes(w, depth), FileDepth(depth), n) == RowsBytes(m, w, pitch, depth, n)
  {
    hide RowOf, ScanlineBytes, FileDepth, LoadedFrom, RowNeeds, HasRow;
    if n != 0 {
      RowsSavedAgain(l, m, w, h, pitch, depth, n - 1);
      LoadedRowSavedAgain(l, m, w, h, pitch, depth, n - 1);
    }
  }

  // ---------- 4 bits ----------

  /** A bitmap whose first pixel is one and whose others are zero. */
  function OnePixel(size: nat): (m: seq<byte>)
    ensures |m| == 1 + size
  {
    [1] + Zeros(size)
  }

  /** The first octet of a packed row. */
  lemma FirstOctet(m: seq<byte>, w: nat, pitch: nat)
    requires 0 < w && HasRow(m, 0, pitch, RowNeeds(w, 4))
    ensures RowOf(m, w, pitch, 4, 0)[0] == Join(m[0] % 16, if w > 1 then m[1] % 16 else 0)
  {
    hide Join;
    assert m[0 * pitch..] == m;
    assert Rle4.LowNibbles(m[..w])[0] == m[0] % 16;
  }

  /** The rows end with row 0. */
  lemma {:induction false} RowZeroIsLast(m: seq<byte>, w: nat, pitch: nat, depth: nat, n: nat)
    requires 0 < n && Readable(m, w, n, pitch, depth)
    ensures HasRow(m, 0, pitch, RowNeeds(w, depth))
    ensures RowsBytes(m, w, pitch, depth, n)[|RowsBytes(m, w, pitch, depth, n)| - ScanlineBytes(w, depth)..]
         == RowOf(m, w, pitch, depth, 0)
    ensures |RowsBytes(m, w, pitch, depth, n)| >= ScanlineBytes(w, depth)
  {
    hide RowOf, ScanlineBytes, RowNeeds;
    assert HasRow(m, 0, pitch, RowNeeds(w, depth)) && HasRow(m, n - 1, pitch, RowNeeds(w, depth));
    if n == 1 {
      NoRows(m, w, pitch, depth);
    } else {
      RowZeroIsLast(m, w, pitch, depth, n - 1);
    }
  }

  /** Loading packs the pixel into the high nibble, saving takes it from the low one. */
  lemma FirstRowDiffers(l: seq<byte>, m: seq<byte>, w: nat, h: nat, pitch: nat)
    requires 0 < w && 0 < h && Readable(m, w, h, pitch, 4) && LoadedFrom(l, m, w, h, pitch, 4)
    requires |m| >= 2 && m[0] == 1 && m[1] == 0
    ensures !SavedAgain(l, m, w, h, pitch, 4)
  {
    if SavedAgain(l, m, w, h, pitch, 4) {
      hide RowOf, LoadedFrom;
      var p := ScanlineBytes(w, 4);
      RowZeroIsLast(m, w, pitch, 4, h);
      RowZeroIsLast(l, w, p, 4, h);
      SavedFirstOctet(l, m, w, h, pitch);
    }
  }

  lemma SavedFirstOctet(l: seq<byte>, m: seq<byte>, w: nat, h: nat, pitch: nat)
    requires 0 < w && 0 < h && Readable(m, w, h, pitch, 4) && LoadedFrom(l, m, w, h, pitch, 4)
    requires |m| >= 2 && m[0] == 1 && m[1] == 0
    requires HasRow(m, 0, pitch, RowNeeds(w, 4)) && HasRow(l, 0, ScanlineBytes(w, 4), RowNeeds(w, 4))
    ensures RowOf(l, w, ScanlineBytes(w, 4), 4, 0)[0] != RowOf(m, w, pitch, 4, 0)[0]
  {
    var p := ScanlineBytes(w, 4);
    var row := RowOf(m, w, pitch, 4, 0);
    hide RowOf;
    FirstOctet(m, w, pitch);
    FirstOctet(l, w, p);
    assert HoldsRow(l, 0, p, row) && l[0 * p..0 * p + p] == l[..p];
    assert l[0] == l[..p][0] == row[0] == 16;
  }

  /** The rows in the order in which they lie in memory. */
  function LoadedBytes(m: seq<byte>, w: nat, pitch: nat, depth: nat, n: nat): (l: seq<byte>)
    requires Readable(m, w, n, pitch, depth)
    ensures |l| == n * ScanlineBytes(w, depth)
  {
    if n == 0 then []
    else
      assert HasRow(m, n - 1, pitch, RowNeeds(w, depth));
      MulStep(n, ScanlineBytes(w, depth));
      LoadedBytes(m, w, pitch, depth, n - 1) + RowOf(m, w, pitch, depth, n - 1)
  }

  lemma {:induction false} LoadedBytesAt(m: seq<byte>, w: nat, pitch: nat, depth: nat, n: nat, i: nat)
    requires Readable(m, w, n, pitch, depth) && i < n
    ensures HasRow(m, i, pitch, RowNeeds(w, depth))
    ensures HoldsRow(LoadedBytes(m, w, pitch, depth, n), i, ScanlineBytes(w, depth), RowOf(m, w, pitch, depth, i))
  {
    hide RowOf, ScanlineBytes, RowNeeds, HoldsRow;
    assert HasRow(m, i, pitch, RowNeeds(w, depth)) && HasRow(m, n - 1, pitch, RowNeeds(w, depth));
    var p, before, last := ScanlineBytes(w, depth), LoadedBytes(m, w, pitch, depth, n - 1), RowOf(m, w, pitch, depth, n - 1);
    if i < n - 1 {
      LoadedBytesAt(m, w, pitch, depth, n - 1, i);
      HoldsLonger(before, last, i, p, RowOf(m, w, pitch, depth, i));
    } else {
      HoldsLast(before, last, i, p);
    }
  }

  lemma HoldsLonger(a: seq<byte>, b: seq<byte>, i: nat, p: nat, row: seq<byte>)
    requires HoldsRow(a, i, p, row)
    ensures HoldsRow(a + b, i, p, row)
  {
    assert (a + b)[i * p..i * p + p] == a[i * p..i * p + p];
  }

  lemma HoldsLast(a: seq<byte>, row: seq<byte>, i: nat, p: nat)
    requires |a| == i * p && |row| == p
    ensures HoldsRow(a + row, i, p, row)
  {}

  lemma LoadedExists(m: seq<byte>, w: nat, h: nat, pitch: nat, depth: nat)
    requires Readable(m, w, h, pitch, depth)
    ensures LoadedFrom(LoadedBytes(m, w, pitch, depth, h), m, w, h, pitch, depth)
  {
    hide RowOf, ScanlineBytes, RowNeeds, HoldsRow, Readable, HasRow, LoadedBytes;
    forall i | 0 <= i < h
      ensures HasRow(m, i, pitch, RowNeeds(w, depth))
      ensures HoldsRow(LoadedBytes(m, w, pitch, depth, h), i, ScanlineBytes(w, depth), RowOf(m, w, pitch, depth, i))
    {
      LoadedBytesAt(m, w, pitch, depth, h, i);
    }
  }

  lemma OnePixelReadable(w: nat, h: nat, pitch: nat)
    ensures Readable(OnePixel(h * pitch + w + 1), w, h, pitch, 4)
  {
    var m := OnePixel(h * pitch + w + 1);
    forall i | 0 <= i < h ensures HasRow(m, i, pitch, RowNeeds(w, 4)) {
      MulMonotone(pitch, i, h);
    }
  }

  // ---------- when it works ----------

  lemma EmptyRows(l: seq<byte>, m: seq<byte>, w: nat, h: nat, pitch: nat, depth: nat)
    requires Readable(m, w, h, pitch, depth) && LoadedFrom(l, m, w, h, pitch, depth) && (w == 0 || h == 0)
    ensures SavedAgain(l, m, w, h, pitch, depth)
  {
    var p, d := ScanlineBytes(w, depth), FileDepth(depth);
    SameSizes(w, depth);
    if h == 0 {
      NoRowsReadable(l, w, p, d);
    } else {
      NoWidth(l, h, d);
    }
    hide Readable, ScanlineBytes, FileDepth, LoadedFrom;
    assert |RowsBytes(l, w, p, d, h)| == h * p == |RowsBytes(m, w, pitch, depth, h)|;
    assert w == 0 ==> h * p == 0;
  }

  lemma NoWidth(l: seq<byte>, h: nat, depth: nat)
    ensures ScanlineBytes(0, depth) == 0 && Readable(l, 0, h, 0, depth)
  {
    forall i | 0 <= i < h ensures HasRow(l, i, 0, RowNeeds(0, depth)) {}
  }

  lemma TrueRows(l: seq<byte>, m: seq<byte>, w: nat, h: nat, pitch: nat, depth: nat)
    requires Readable(m, w, h, pitch, depth) && LoadedFrom(l, m, w, h, pitch, depth) && depth != 4
    ensures SavedAgain(l, m, w, h, pitch, depth)
  {
    LoadedIsReadableIff(l, w, h, depth);
    RowsSavedAgain(l, m, w, h, pitch, depth, h);
  }

  lemma NotSavedAgain(w: nat, h: nat, pitch: nat) returns (m: seq<byte>, l: seq<byte>)
    requires 0 < w && 0 < h
    ensures Readable(m, w, h, pitch, 4) && LoadedFrom(l, m, w, h, pitch, 4) && !SavedAgain(l, m, w, h, pitch, 4)
  {
    hide Readable, LoadedFrom, SavedAgain, LoadedBytes;
    m := OnePixel(h * pitch + w + 1);
    OnePixelReadable(w, h, pitch);
    l := LoadedBytes(m, w, pitch, 4, h);
    LoadedExists(m, w, h, pitch, 4);
    FirstRowDiffers(l, m, w, h, pitch);
  }

  /** Of all bitmaps of a size, saving what was loaded gives the same rows exactly if they
      do not have 4 bits, or have no pixels. */
  lemma SavedAgainIff(w: nat, h: nat, pitch: nat, depth: nat)
    ensures (forall m, l :: Readable(m, w, h, pitch, depth) && LoadedFrom(l, m, w, h, pitch, depth) ==> SavedAgain(l, m, w, h, pitch, depth))
       <==> depth != 4 || w == 0 || h == 0
  {
    hide Readable, LoadedFrom, SavedAgain;
    if depth == 4 && w != 0 && h != 0 {
      var m, l := NotSavedAgain(w, h, pitch);
    } else {
      forall m, l | Readable(m, w, h, pitch, depth) && LoadedFrom(l, m, w, h, pitch, depth)
        ensures SavedAgain(l, m, w, h, pitch, depth)
      {
        if depth != 4 {
          TrueRows(l, m, w, h, pitch, depth);
        } else {
          EmptyRows(l, m, w, h, pitch, depth);
        }
      }
    }
  }

  /** The same rows mean the same file. */
  lemma FileSavedAgain(l: seq<byte>, m: seq<byte>, w: nat, h: nat, pitch: nat, depth: nat, pal: seq<Rgb>, reserved: seq<byte>)
    requires Readable(m, w, h, pitch, depth) && SavedAgain(l, m, w, h, pitch, depth)
    requires Colours(depth) <= |pal| && Colours(depth) <= |reserved|
    ensures Flatten(FileChunks(l, w, h, ScanlineBytes(w, depth), FileDepth(depth), pal, reserved))
         == Flatten(FileChunks(m, w, h, pitch, depth, pal, reserved))
  {
    hide Readable, Flatten, FileChunks, RowsBytes, PaletteChunks, ScanlineBytes, Le2, Le4;
    SameSizes(w, depth);
    assert Colours(FileDepth(depth)) == Colours(depth);
    FileFlattens(m, w, h, pitch, depth, pal, reserved);
    FileFlattens(l, w, h, ScanlineBytes(w, depth), FileDepth(depth), pal, reserved);
  }
}
