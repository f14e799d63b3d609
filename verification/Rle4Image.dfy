/** Loading a whole picture of delta-free 4-bit run-length lines. */
module Rle4Image {
  import opened Bytes
  import opened MemStream
  import opened Reader
  import opened Rle
  import opened Rle4
  import opened BmpLoad
  import Rle8Image

  datatype Line = Line(ops: seq<Op>, end: Op)

  /** The row that a line stands for, two pixels to an octet. */
  function Packed(line: Line): (s: seq<byte>) {
    PackRow(PixelsOf(line.ops, 0))
  }

  /** A delta-free line that stays within the width. */
  ghost predicate IsRow(line: Line, w: nat) {
    && DeltaFree(line.ops) && |PixelsOf(line.ops, 0)| <= w
    && (line.end.EndLine? || line.end.EndPicture?)
  }

  /** Only the last line may end the picture. */
  ghost predicate IsPicture(lines: seq<Line>, n: nat, w: nat) {
    && |lines| <= n
    && (forall k :: 0 <= k < |lines| ==> IsRow(lines[k], w))
    && (forall k :: 0 <= k < |lines| - 1 ==> lines[k].end.EndLine?)
    && (|lines| < n ==> lines != [] && lines[|lines| - 1].end.EndPicture?)
  }

  function PictureBytes(lines: seq<Line>, n: nat, w: nat): seq<byte>
    requires IsPicture(lines, n, w)
    decreases |lines|
  {
    if lines == [] then []
    else if lines[0].end.EndPicture? then LineBytes(lines[0].ops, lines[0].end)
    else
      Tail(lines, n, w);
      LineBytes(lines[0].ops, lines[0].end) + PictureBytes(lines[1..], n - 1, w)
  }

  lemma Tail(lines: seq<Line>, n: nat, w: nat)
    requires IsPicture(lines, n, w) && lines != [] && !lines[0].end.EndPicture?
    ensures IsPicture(lines[1..], n - 1, w)
  {
    hide IsRow;
  }

  lemma PackedFits(lines: seq<Line>, n: nat, w: nat)
    requires IsPicture(lines, n, w) && lines != []
    ensures 0 < n && IsRow(lines[0], w) && |Packed(lines[0])| <= Bytes4(w)
    ensures IsLine(lines[0].ops) && WellFormed(lines[0].end)
  {}

  /** The first line has room in the last row, and the rest of the lines below it. */
  lemma FirstRowFits(lines: seq<Line>, n: nat, pitch: nat, w: nat, size: nat)
    requires IsPicture(lines, n, w) && lines != [] && Bytes4(w) <= pitch && n * pitch <= size
    ensures 0 < n && (n - 1) * pitch + |Packed(lines[0])| <= size && (n - 1) * pitch <= size
    ensures n * pitch == (n - 1) * pitch + pitch && (n - 1) * pitch + Bytes4(w) <= size
    ensures IsRow(lines[0], w) && |Packed(lines[0])| <= pitch
    ensures !lines[0].end.EndPicture? ==> IsPicture(lines[1..], n - 1, w)
  {
    hide Packed, IsPicture, IsRow, Bytes4;
    PackedFits(lines, n, w);
    Rle8Image.RowRoom(n, pitch, Bytes4(w), size);
    if !lines[0].end.EndPicture? { Tail(lines, n, w); }
  }

  /** The picture after the lines, bottom row first. */
  function PaintLines(m: seq<byte>, lines: seq<Line>, n: nat, pitch: nat, w: nat): (r: seq<byte>)
    requires IsPicture(lines, n, w) && Bytes4(w) <= pitch && n * pitch <= |m|
    ensures |r| == |m|
    decreases |lines|
  {
    hide Packed, IsPicture, Bytes4;
    if lines == [] then m
    else
      FirstRowFits(lines, n, pitch, w, |m|);
      var m' := Splice(m, (n - 1) * pitch, Packed(lines[0]));
      if lines[0].end.EndPicture? then m' else PaintLines(m', lines[1..], n - 1, pitch, w)
  }

  /** One line read as the row at `at`. */
  lemma LineLoads(t: Tape, line: Line, q: seq<byte>, m: seq<byte>, at: nat, pitch: nat, w: nat)
    requires t.Valid() && IsRow(line, w) && at + Bytes4(w) <= |m|
    requires t.Rest() == LineBytes(line.ops, line.end) + q
    ensures at + |Packed(line)| <= |m|
    ensures RowFits(KindRle4, t, |m|, at, pitch, w) && RowFlag(KindRle4, t, w) == FlagOf(line.end)
    ensures RowTape(KindRle4, t, pitch, w).Rest() == q
    ensures RowMemory(KindRle4, t, m, at, pitch, w) == Splice(m, at, Packed(line))
  {
    hide Rle4.Decode, LineBytes, PixelsOf, DeltaFree, Rle4.PaintAt, PackRow;
    DecodedRowIsPackedRow(t, line.ops, line.end, q, w, m, at);
  }

  /** Rows fill bottom-up, each with the packed pixels of its line, and an end of picture
      leaves the remaining rows as they were. */
  lemma {:induction false} PictureLoads(t: Tape, m: seq<byte>, lines: seq<Line>, n: nat, pitch: nat, w: nat, q: seq<byte>)
    requires t.Valid() && IsPicture(lines, n, w) && Bytes4(w) <= pitch && n * pitch <= |m|
    requires t.Rest() == PictureBytes(lines, n, w) + q
    ensures RowsFit(KindRle4, t, |m|, n, pitch, w)
    ensures LoadRows(KindRle4, t, m, n, pitch, w).ok
    ensures LoadRows(KindRle4, t, m, n, pitch, w).m == PaintLines(m, lines, n, pitch, w)
    ensures LoadRows(KindRle4, t, m, n, pitch, w).tape.Rest() == q
    decreases |lines|
  {
    hide LineBytes, Packed, Splice, IsRow, RowFits, RowFlag, RowTape, RowMemory;
    if lines != [] {
      var line := lines[0];
      var at := (n - 1) * pitch;
      FirstRowFits(lines, n, pitch, w, |m|);
      PackedFits(lines, n, w);
      if line.end.EndPicture? {
        LineLoads(t, line, q, m, at, pitch, w);
      } else {
        var rest := PictureBytes(lines[1..], n - 1, w);
        ConcatAssoc(LineBytes(line.ops, line.end), rest, q);
        LineLoads(t, line, rest + q, m, at, pitch, w);
        PictureLoads(RowTape(KindRle4, t, pitch, w), Splice(m, at, Packed(line)), lines[1..], n - 1, pitch, w, q);
      }
    }
  }

  /** What the lines put at octet `x` of row `i`. */
  function OctetOf(lines: seq<Line>, n: nat, i: nat, x: nat): Option<byte>
    requires i < n
  {
    var k := n - 1 - i;
    if k < |lines| && x < |Packed(lines[k])| then Some(Packed(lines[k])[x]) else None
  }

  lemma OctetBelow(lines: seq<Line>, n: nat, i: nat, x: nat)
    requires lines != [] && i < n - 1
    ensures OctetOf(lines, n, i, x) == OctetOf(lines[1..], n - 1, i, x)
  {
    hide Packed;
    if n - 2 - i < |lines[1..]| { assert lines[1..][n - 2 - i] == lines[n - 1 - i]; }
  }

  /** What the first line leaves at octet `x` of row `i`. */
  lemma FirstLineAt(m: seq<byte>, lines: seq<Line>, n: nat, at: nat, i: nat, x: nat, p: nat)
    requires lines != [] && i < n && at + |Packed(lines[0])| <= |m| && p < |m|
    requires if i < n - 1 then p < at else p == at + x
    ensures Splice(m, at, Packed(lines[0]))[p] == if i < n - 1 then m[p] else OctetOf(lines, n, i, x).GetOr(m[p])
  {
    hide Packed;
  }

  lemma OnlyLine(lines: seq<Line>, n: nat, w: nat, i: nat, x: nat)
    requires IsPicture(lines, n, w) && i < n && (lines == [] || lines[0].end.EndPicture?)
    ensures lines == [] || i < n - 1 ==> OctetOf(lines, n, i, x) == None
  {
    hide Packed, IsRow;
  }

  /** Octet by octet: row `n - 1 - k` starts with the packed pixels of line `k`; the rest
      of each row, and rows without a line, are untouched. */
  lemma {:induction false} PictureAt(m: seq<byte>, lines: seq<Line>, n: nat, pitch: nat, w: nat, i: nat, x: nat)
    requires IsPicture(lines, n, w) && Bytes4(w) <= pitch && n * pitch <= |m| && i < n && x < pitch
    ensures i * pitch + x < |m|
    ensures PaintLines(m, lines, n, pitch, w)[i * pitch + x] == OctetOf(lines, n, i, x).GetOr(m[i * pitch + x])
    decreases |lines|
  {
    hide Packed, OctetOf, Splice, IsPicture;
    Rle8Image.RowOffset(i, n, pitch, x);
    var at, p := (n - 1) * pitch, i * pitch + x;
    if lines == [] {
      OnlyLine(lines, n, w, i, x);
    } else {
      FirstRowFits(lines, n, pitch, w, |m|);
      FirstLineAt(m, lines, n, at, i, x, p);
      if lines[0].end.EndPicture? {
        OnlyLine(lines, n, w, i, x);
      } else {
        var m' := Splice(m, at, Packed(lines[0]));
        if i < n - 1 {
          OctetBelow(lines, n, i, x);
          PictureAt(m', lines[1..], n - 1, pitch, w, i, x);
        } else {
          PictureAbove(m', lines[1..], n - 1, pitch, w, p);
        }
      }
    }
  }

  /** Memory behind row `n - 1` is not touched. */
  lemma {:induction false} PictureAbove(m: seq<byte>, lines: seq<Line>, n: nat, pitch: nat, w: nat, k: nat)
    requires IsPicture(lines, n, w) && Bytes4(w) <= pitch && n * pitch <= |m| && n * pitch <= k < |m|
    ensures PaintLines(m, lines, n, pitch, w)[k] == m[k]
    decreases |lines|
  {
    hide Packed, IsPicture, Splice;
    if lines != [] {
      FirstRowFits(lines, n, pitch, w, |m|);
      SpliceBelow(m, (n - 1) * pitch, Packed(lines[0]), k);
      if !lines[0].end.EndPicture? {
        PictureAbove(Splice(m, (n - 1) * pitch, Packed(lines[0])), lines[1..], n - 1, pitch, w, k);
      }
    }
  }

  lemma SpliceBelow(m: seq<byte>, at: nat, s: seq<byte>, k: nat)
    requires at + |s| <= k < |m|
    ensures Splice(m, at, s)[k] == m[k]
  {
  }
}
