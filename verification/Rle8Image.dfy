/** Loading a whole picture of 8-bit run-length lines. */
module Rle8Image {
  import opened Bytes
  import opened MemStream
  import opened Reader
  import opened Rle
  import opened Rle8
  import opened BmpLoad

  datatype Line = Line(ops: seq<Op>, end: Op)

  /** Lines that stay within the width; only the last one may end the picture. */
  ghost predicate IsPicture(lines: seq<Line>, n: nat, w: nat) {
    && |lines| <= n
    && (forall k :: 0 <= k < |lines| ==> IsLine(lines[k].ops) && |ExpandAll(lines[k].ops)| <= w)
    && (forall k :: 0 <= k < |lines| ==> lines[k].end.EndLine? || (k == |lines| - 1 && lines[k].end.EndPicture?))
    && (|lines| < n ==> lines != [] && lines[|lines| - 1].end.EndPicture?)
  }

  function PictureBytes(lines: seq<Line>, n: nat, w: nat): seq<byte>
    requires IsPicture(lines, n, w)
    decreases |lines|
  {
    if lines == [] then []
    else if lines[0].end.EndPicture? then LineBytes(lines[0].ops, lines[0].end)
    else
      Tail(lines, n, w);
      LineBytes(lines[0].ops, lines[0].end) + PictureBytes(lines[1..], n - 1, w)
  }

  lemma Tail(lines: seq<Line>, n: nat, w: nat)
    requires IsPicture(lines, n, w) && lines != [] && !lines[0].end.EndPicture?
    ensures IsPicture(lines[1..], n - 1, w)
  {}

  /** The first line has room in the last row, and the rest of the lines below it. */
  lemma FirstFits(lines: seq<Line>, n: nat, pitch: nat, w: nat, size: nat)
    requires IsPicture(lines, n, w) && lines != [] && w <= pitch && n * pitch <= size
    ensures 0 < n && |ExpandAll(lines[0].ops)| <= w && IsLine(lines[0].ops)
    ensures (n - 1) * pitch + w <= size && (n - 1) * pitch <= size && n * pitch == (n - 1) * pitch + pitch
    ensures !lines[0].end.EndPicture? ==> IsPicture(lines[1..], n - 1, w)
  {
    hide ExpandAll, IsLine;
    RowRoom(n, pitch, w, size);
    if !lines[0].end.EndPicture? { Tail(lines, n, w); }
  }

  /** The picture after the lines, bottom row first. */
  function PaintLines(m: seq<byte>, lines: seq<Line>, n: nat, pitch: nat, w: nat): (r: seq<byte>)
    requires IsPicture(lines, n, w) && w <= pitch && n * pitch <= |m|
    ensures |r| == |m|
    decreases |lines|
  {
    hide ExpandAll, IsLine, IsPicture;
    if lines == [] then m
    else
      FirstFits(lines, n, pitch, w, |m|);
      var m' := PaintAt(m, (n - 1) * pitch, ExpandAll(lines[0].ops));
      if lines[0].end.EndPicture? then m' else PaintLines(m', lines[1..], n - 1, pitch, w)
  }

  lemma RowRoom(n: nat, pitch: nat, w: nat, size: nat)
    requires 0 < n && w <= pitch && n * pitch <= size
    ensures (n - 1) * pitch + w <= size && (n - 1) * pitch <= size && n * pitch == (n - 1) * pitch + pitch
  {}

  /** One line read as row `n - 1`. */
  lemma LineLoads(t: Tape, line: Line, q: seq<byte>, size: nat, at: nat, pitch: nat, w: nat)
    requires t.Valid() && IsLine(line.ops) && (line.end.EndLine? || line.end.EndPicture?)
    requires |ExpandAll(line.ops)| <= w && at + w <= size
    requires t.Rest() == LineBytes(line.ops, line.end) + q
    ensures RowFits(KindRle8, t, size, at, pitch, w) && RowFlag(KindRle8, t, w) == FlagOf(line.end)
    ensures RowTape(KindRle8, t, pitch, w).Rest() == q
    ensures Decode(t, 0, w).cells == ExpandAll(line.ops)
  {
    hide Decode, LineBytes, ExpandAll, Skip;
    DecodeInvertsSerialise(t, line.ops, line.end, q, 0, w);
  }

  /** Rows fill bottom-up, each with the expansion of its line, and an end of picture
      leaves the remaining rows as they were. */
  lemma {:induction false} PictureLoads(t: Tape, m: seq<byte>, lines: seq<Line>, n: nat, pitch: nat, w: nat, q: seq<byte>)
    requires t.Valid() && IsPicture(lines, n, w) && w <= pitch && n * pitch <= |m|
    requires t.Rest() == PictureBytes(lines, n, w) + q
    ensures RowsFit(KindRle8, t, |m|, n, pitch, w)
    ensures LoadRows(KindRle8, t, m, n, pitch, w).ok
    ensures LoadRows(KindRle8, t, m, n, pitch, w).m == PaintLines(m, lines, n, pitch, w)
    ensures LoadRows(KindRle8, t, m, n, pitch, w).tape.Rest() == q
    decreases |lines|
  {
    hide LineBytes, ExpandAll, Decode, PaintAt, IsLine, Skip;
    if lines != [] {
      var line := lines[0];
      var at := (n - 1) * pitch;
      FirstFits(lines, n, pitch, w, |m|);
      if line.end.EndPicture? {
        LineLoads(t, line, q, |m|, at, pitch, w);
      } else {
        var rest := PictureBytes(lines[1..], n - 1, w);
        ConcatAssoc(LineBytes(line.ops, line.end), rest, q);
        LineLoads(t, line, rest + q, |m|, at, pitch, w);
        PictureLoads(RowTape(KindRle8, t, pitch, w), PaintAt(m, at, ExpandAll(line.ops)), lines[1..], n - 1, pitch, w, q);
      }
    }
  }

  /** What the lines paint at column `x` of row `i`. */
  function PixelOf(lines: seq<Line>, n: nat, i: nat, x: nat): Option<byte>
    requires i < n
  {
    var k := n - 1 - i;
    if k < |lines| && x < |ExpandAll(lines[k].ops)| then ExpandAll(lines[k].ops)[x] else None
  }

  lemma RowOffset(i: nat, n: nat, pitch: nat, x: nat)
    requires i < n && x < pitch
    ensures i * pitch + x < n * pitch && (n - 1) * pitch <= n * pitch
    ensures i < n - 1 ==> i * pitch + x < (n - 1) * pitch
  {
    MulStep(i + 1, pitch);
    MulMonotone(pitch, i + 1, n);
    MulStep(n, pitch);
    if i < n - 1 { MulMonotone(pitch, i + 1, n - 1); }
  }

  lemma PixelBelow(lines: seq<Line>, n: nat, i: nat, x: nat)
    requires lines != [] && i < n - 1
    ensures PixelOf(lines, n, i, x) == PixelOf(lines[1..], n - 1, i, x)
  {
    if n - 2 - i < |lines[1..]| { assert lines[1..][n - 2 - i] == lines[n - 1 - i]; }
  }

  /** What the first line leaves at column `x` of row `i`. */
  lemma FirstLineAt(m: seq<byte>, lines: seq<Line>, n: nat, at: nat, i: nat, x: nat, p: nat)
    requires lines != [] && i < n && at + |ExpandAll(lines[0].ops)| <= |m| && p < |m|
    requires if i < n - 1 then p < at else p == at + x
    ensures PaintAt(m, at, ExpandAll(lines[0].ops))[p]
         == if i < n - 1 then m[p] else PixelOf(lines, n, i, x).GetOr(m[p])
  {
    hide ExpandAll;
  }

  lemma OnlyLine(lines: seq<Line>, n: nat, w: nat, i: nat, x: nat)
    requires IsPicture(lines, n, w) && i < n && (lines == [] || lines[0].end.EndPicture?)
    ensures lines == [] || i < n - 1 ==> PixelOf(lines, n, i, x) == None
    ensures lines != [] ==> |ExpandAll(lines[0].ops)| <= w
  {
    hide ExpandAll, IsLine;
  }

  /** Pixel by pixel: row `n - 1 - k` holds line `k` where the line painted, and what
      was there before where it skipped; rows without a line are untouched. */
  lemma {:induction false} PictureAt(m: seq<byte>, lines: seq<Line>, n: nat, pitch: nat, w: nat, i: nat, x: nat)
    requires IsPicture(lines, n, w) && w <= pitch && n * pitch <= |m| && i < n && x < pitch
    ensures i * pitch + x < |m|
    ensures PaintLines(m, lines, n, pitch, w)[i * pitch + x] == PixelOf(lines, n, i, x).GetOr(m[i * pitch + x])
    decreases |lines|
  {
    hide ExpandAll, IsLine, PixelOf, PaintAt, IsPicture;
    RowOffset(i, n, pitch, x);
    var at, p := (n - 1) * pitch, i * pitch + x;
    if lines == [] || lines[0].end.EndPicture? {
      OnlyLine(lines, n, w, i, x);
      if lines != [] {
        FirstFits(lines, n, pitch, w, |m|);
        FirstLineAt(m, lines, n, at, i, x, p);
      }
    } else {
      FirstFits(lines, n, pitch, w, |m|);
      FirstLineAt(m, lines, n, at, i, x, p);
      var m' := PaintAt(m, at, ExpandAll(lines[0].ops));
      if i < n - 1 {
        PixelBelow(lines, n, i, x);
        PictureAt(m', lines[1..], n - 1, pitch, w, i, x);
      } else {
        PictureAbove(m', lines[1..], n - 1, pitch, w, p);
      }
    }
  }

  /** Memory behind row `n - 1` is not touched. */
  lemma {:induction false} PictureAbove(m: seq<byte>, lines: seq<Line>, n: nat, pitch: nat, w: nat, k: nat)
    requires IsPicture(lines, n, w) && w <= pitch && n * pitch <= |m| && n * pitch <= k < |m|
    ensures PaintLines(m, lines, n, pitch, w)[k] == m[k]
    decreases |lines|
  {
    hide ExpandAll, IsLine, IsPicture;
    if lines != [] {
      FirstFits(lines, n, pitch, w, |m|);
      if !lines[0].end.EndPicture? {
        PictureAbove(PaintAt(m, (n - 1) * pitch, ExpandAll(lines[0].ops)), lines[1..], n - 1, pitch, w, k);
      }
    }
  }
}
