/** `read_RLE4_compressed_image`: one line of the 4-bit run-length format, and the
    row packer `bmpGet16CScanline` it agrees with. */
module Rle4 {
  import opened Bytes
  import opened MemStream
  import opened Reader
  import opened Rle

  datatype Op =
    | Pixels(count: nat, even: nibble, odd: nibble)
    | Literal(values: seq<nibble>, pad: seq<nibble>)
    | Delta(dx: nat, dy: nat)
    | EndLine
    | EndPicture

  // ---------- what a line means ----------

  /** A character converted to `unsigned short`: at the end of the stream, 65535. */
  function ShortAt(t: Tape, i: nat): nat
    requires t.Valid()
  {
    if t.pos + i < |t.bytes| then t.bytes[t.pos + i] else 65535
  }

  /** The `j`-th nibble of the octets ahead, high nibble first. */
  function NibbleAt(t: Tape, j: nat): nibble
    requires t.Valid()
  {
    if j % 2 == 0 then OctetAt(t, j / 2) / 16 else OctetAt(t, j / 2) % 16
  }

  function Nibbles(t: Tape, from: nat, n: nat): (s: seq<nibble>)
    requires t.Valid()
    ensures |s| == n && forall i :: 0 <= i < n ==> s[i] == NibbleAt(t, from + i)
  {
    seq<nibble>(n, i requires 0 <= i => NibbleAt(t, from + i))
  }

  /** How many nibbles of padding complete the last word of four. */
  function PadSize(n: nat): nat {
    (4 - n % 4) % 4
  }

  /** The operation at the cursor. */
  function OpAt(t: Tape): (op: Op)
    requires t.Valid()
    ensures op.Pixels? ==> 0 < op.count < 256
    ensures op.Literal? ==> 3 <= |op.values|
  {
    var count, val := OctetAt(t, 0), ShortAt(t, 1);
    if count > 0 then Pixels(count, val / 16 % 16, val % 16)
    else if val == 0 then EndLine
    else if val == 1 then EndPicture
    else if val == 2 then Delta(OctetAt(t, 2), OctetAt(t, 3))
    else Literal(Nibbles(Skip(t, 2), 0, val), Nibbles(Skip(t, 2), val, PadSize(val)))
  }

  /** The number of octets an operation takes: absolute mode takes whole words. */
  function Size(op: Op): nat {
    match op
    case Literal(values, _) => 2 + 2 * ((|values| + 3) / 4)
    case Delta(_, _) => 4
    case _ => 2
  }

  /** A run pixel at an even column takes the high nibble, at an odd one the low
      nibble, wherever the run started. */
  function RunFrom(op: Op, pos: nat): (s: seq<nibble>)
    requires op.Pixels?
    ensures |s| == op.count
  {
    seq<nibble>(op.count, i requires 0 <= i => if (pos + i) % 2 == 0 then op.even else op.odd)
  }

  /** The format takes the two nibbles in turn from the start of the run. The decoder does
      the same exactly for runs that start in an even column or have equal nibbles. */
  lemma RunAsInFormatIff(op: Op, pos: nat)
    requires op.Pixels? && 0 < op.count
    ensures (forall i :: 0 <= i < op.count ==> RunFrom(op, pos)[i] == if i % 2 == 0 then op.even else op.odd)
       <==> pos % 2 == 0 || op.even == op.odd
  {
    if pos % 2 != 0 && op.even != op.odd {
      assert RunFrom(op, pos)[0] == op.odd;
    }
  }

  /** The cells of an operation that starts at column `pos`. */
  function Expand(op: Op, pos: nat): Cells<nibble> {
    match op
    case Pixels(_, _, _) => Painted(RunFrom(op, pos))
    case Literal(values, _) => Painted(values)
    case Delta(dx, _) => Gap(dx)
    case _ => []
  }

  lemma RunSize(op: Op, pos: nat)
    ensures op.Pixels? ==> |Expand(op, pos)| == op.count
  {}

  predicate Overruns(op: Op, pos: nat, width: nat) {
    op.Pixels? && pos + op.count > width
  }

  /** The cells that are painted before the loop goes on or gives up. */
  function PaintedBy(op: Op, pos: nat, width: nat): Cells<nibble>
    requires pos <= width
  {
    if Overruns(op, pos, width) then Expand(op, pos)[..width + 1 - pos] else Expand(op, pos)
  }

  lemma Progress(t: Tape, pos: nat, width: nat)
    requires t.Valid() && pos <= width
    ensures var op := OpAt(t);
            !op.EndLine? && !op.EndPicture? ==>
              Left(Skip(t, Size(op)), pos + |Expand(op, pos)|, width) < Left(t, pos, width)
  {}

  /** Decoding from column `pos` on. A run that passes the width stops right after
      painting column `width`. */
  function Decode(t: Tape, pos: nat, width: nat): (r: Outcome<nibble>)
    requires t.Valid()
    ensures r.tape.Valid()
    decreases Left(t, pos, width)
  {
    if pos > width then Outcome(BmpErr, t, [])
    else
      var op := OpAt(t);
      var next := Skip(t, Size(op));
      var cells := Expand(op, pos);
      if op.EndLine? then Outcome(BmpLine, next, [])
      else if op.EndPicture? then Outcome(BmpEnd, next, [])
      else if Overruns(op, pos, width) then Outcome(BmpErr, next, cells[..width + 1 - pos])
      else
        Progress(t, pos, width);
        var rest := Decode(next, pos + |cells|, width);
        Outcome(rest.flag, rest.tape, cells + rest.cells)
  }

  lemma DecodeUnfolds(t: Tape, pos: nat, width: nat, op: Op)
    requires t.Valid() && pos <= width && op == OpAt(t)
    ensures var next, cells, r := Skip(t, Size(op)), Expand(op, pos), Decode(t, pos, width);
            if op.EndLine? then r.flag == BmpLine && r.tape == next && r.cells == []
            else if op.EndPicture? then r.flag == BmpEnd && r.tape == next && r.cells == []
            else if Overruns(op, pos, width) then
              r.flag == BmpErr && r.tape == next && r.cells == cells[..width + 1 - pos]
            else Continues(r, cells, Decode(next, pos + |cells|, width))
  {}

  lemma DecodePast(t: Tape, pos: nat, width: nat)
    requires t.Valid() && width < pos
    ensures Decode(t, pos, width) == Outcome(BmpErr, t, [])
  {}

  // ---------- painting nibbles ----------

  /** The octets that columns `0 .. n - 1` occupy. */
  function Bytes4(n: nat): nat {
    (n + 1) / 2
  }

  /** An even column sets its octet, an odd one is or-ed into it. */
  function PaintCell(m: seq<byte>, at: nat, col: nat, cell: Option<nibble>): (r: seq<byte>)
    requires at + Bytes4(col + 1) <= |m|
    ensures |r| == |m|
  {
    match cell
    case None => m
    case Some(v) =>
      var k := at + col / 2;
      m[k := if col % 2 == 0 then Join(v, 0) else OrByte(m[k], v)]
  }

  /** An even column clears the nibble of the next one. An odd column keeps the nibble of
      the one before, and adds its bits to those that its own nibble already has. */
  lemma NibblePainted(m: seq<byte>, at: nat, col: nat, v: nibble)
    requires at + Bytes4(col + 1) <= |m|
    ensures var k, r := at + col / 2, PaintCell(m, at, col, Some(v));
            && (forall i :: 0 <= i < |m| && i != k ==> r[i] == m[i])
            && (col % 2 == 0 ==> r[k] as int == 16 * v as int)
            && (col % 2 == 1 ==> r[k] as int == m[k] as int / 16 * 16 + Or(m[k] as int % 16, v))
  {
    hide Or, OrByte, Pow2;
    var b: int := m[at + col / 2];
    OrNibbleOf(b / 16, b % 16, v);
  }

  lemma OrNibbleOf(hi: nat, lo: nibble, v: nibble)
    requires hi < 16
    ensures OrByte(16 * hi + lo as int, v) as int == 16 * hi + Or(lo, v)
  {
    hide Or;
    assert Pow2(4) == 16;
    OrLow(hi, lo, v, 4);
  }

  /** The memory after painting the cells, in order, for a row that starts at `at`
      and whose first cell is in column `col`. */
  function PaintAt(m: seq<byte>, at: nat, col: nat, cells: Cells<nibble>): (r: seq<byte>)
    requires at + Bytes4(col + |cells|) <= |m|
    ensures |r| == |m|
    decreases |cells|
  {
    if cells == [] then m
    else
      var init := cells[..|cells| - 1];
      PaintCell(PaintAt(m, at, col, init), at, col + |init|, cells[|cells| - 1])
  }

  lemma {:induction false} PaintMore(m: seq<byte>, at: nat, col: nat, cells: Cells<nibble>, more: Cells<nibble>)
    requires at + Bytes4(col + |cells| + |more|) <= |m|
    ensures PaintAt(m, at, col, cells + more) == PaintAt(PaintAt(m, at, col, cells), at, col + |cells|, more)
    decreases |more|
  {
    if more == [] {
      assert cells + more == cells;
    } else {
      var init := more[..|more| - 1];
      PaintMore(m, at, col, cells, init);
      assert (cells + more)[..|cells + more| - 1] == cells + init;
    }
  }

  lemma {:induction false} PaintNothing(m: seq<byte>, at: nat, col: nat, n: nat)
    requires at + Bytes4(col + n) <= |m|
    ensures PaintAt(m, at, col, Gap(n)) == m
  {
    if n != 0 {
      PaintNothing(m, at, col, n - 1);
      assert Gap<nibble>(n)[..n - 1] == Gap<nibble>(n - 1);
    }
  }

  lemma {:induction false} PaintNotBelow(m: seq<byte>, at: nat, cells: Cells<nibble>)
    requires at + Bytes4(|cells|) <= |m|
    ensures PaintAt(m, at, 0, cells)[..at] == m[..at]
  {
    if cells != [] {
      PaintNotBelow(m, at, cells[..|cells| - 1]);
    }
  }

  // ---------- the decoder ----------

  /** `bits[pos / 2]` set or or-ed, by the parity of the column. */
  method PutNibble(bits: array<byte>, off: nat, pos: nat, v: nibble)
    requires off + Bytes4(pos + 1) <= bits.Length
    modifies bits
    ensures bits[..] == PaintCell(old(bits[..]), off, pos, Some(v))
  {
    if pos % 2 == 0 {
      bits[off + pos / 2] := Join(v, 0);
    } else {
      bits[off + pos / 2] := OrByte(bits[off + pos / 2], v);
    }
  }

  lemma PaintOne(m: seq<byte>, at: nat, col: nat, vs: seq<nibble>, j: nat)
    requires j < |vs| && at + Bytes4(col + j + 1) <= |m|
    ensures PaintAt(m, at, col, Painted(vs[..j + 1]))
         == PaintCell(PaintAt(m, at, col, Painted(vs[..j])), at, col + j, Some(vs[j]))
  {
    assert Painted(vs[..j + 1])[..j] == Painted(vs[..j]);
  }

  /** A run. It stops as soon as it has painted at or beyond column `width`. */
  method FillRun(bits: array<byte>, off: nat, pos: nat, width: nat, op: Op) returns (pos': nat, over: bool)
    requires op.Pixels? && pos <= width
    requires off + Bytes4(if pos + op.count > width then width + 1 else pos + op.count) <= bits.Length
    modifies bits
    ensures over <==> pos + op.count > width
    ensures !over ==> pos' == pos + op.count
    ensures bits[..] == PaintAt(old(bits[..]), off, pos,
                          if over then Painted(RunFrom(op, pos))[..width + 1 - pos] else Painted(RunFrom(op, pos)))
  {
    hide PaintAt, PaintCell;
    ghost var m, vs := bits[..], RunFrom(op, pos);
    pos' := pos;
    PaintNothing(m, off, pos, 0);
    assert Painted(vs[..0]) == Gap<nibble>(0);
    for j := 0 to op.count
      invariant pos' == pos + j <= width
      invariant bits[..] == PaintAt(m, off, pos, Painted(vs[..j]))
    {
      PaintOne(m, off, pos, vs, j);
      PutNibble(bits, off, pos', if pos' % 2 == 0 then op.even else op.odd);
      if pos' >= width {
        assert Painted(vs)[..width + 1 - pos] == Painted(vs[..j + 1]);
        return pos', true;
      }
      pos' := pos' + 1;
    }
    assert vs[..op.count] == vs;
    over := false;
  }

  /** The four nibbles of a word, in the order in which they are painted. */
  lemma WordNibbles(t: Tape, w: nat)
    requires t.Valid()
    ensures var val0 := WordAt(t, 2 * w);
            && val0 % 16 == NibbleAt(t, 4 * w + 1) && val0 / 16 % 16 == NibbleAt(t, 4 * w)
            && val0 / 16 / 16 % 16 == NibbleAt(t, 4 * w + 3) && val0 / 16 / 16 / 16 % 16 == NibbleAt(t, 4 * w + 2)
  {
    var lo: int, hi: int := OctetAt(t, 2 * w), OctetAt(t, 2 * w + 1);
    var val0 := WordAt(t, 2 * w);
    assert val0 == lo + 256 * hi;
    assert val0 / 16 == lo / 16 + 16 * hi;
    assert val0 / 16 / 16 == hi;
  }

  /** The word of the `w`-th group of four pixels. */
  method FetchWord(f: MemRW, ghost t: Tape, ghost w: nat) returns (b0: nibble, b1: nibble, b2: nibble, b3: nibble)
    requires f.Valid() && t.Valid() && f.View() == Skip(t, 2 * w)
    modifies f`here
    ensures f.Valid() && f.View() == Skip(t, 2 * w + 2)
    ensures b0 == NibbleAt(t, 4 * w) && b1 == NibbleAt(t, 4 * w + 1)
    ensures b2 == NibbleAt(t, 4 * w + 2) && b3 == NibbleAt(t, 4 * w + 3)
  {
    hide NibbleAt, OctetAt;
    var val0 := GetW(f);
    SkipSkip(t, 2 * w, 0); SkipSkip(t, 2 * w, 1); SkipSkip(t, 2 * w, 2);
    WordNibbles(t, w);
    b1, val0 := val0 % 16, val0 / 16;
    b0, val0 := val0 % 16, val0 / 16;
    b3, val0 := val0 % 16, val0 / 16;
    b2, val0 := val0 % 16, val0 / 16;
  }

  lemma Lane(j: nat, w: nat)
    requires 4 * w <= j + 4 && j < 4 * w
    ensures j % 4 == j + 4 - 4 * w
  {}

  /** Absolute mode: a word is fetched for every four pixels. */
  method FillLiteral(f: MemRW, bits: array<byte>, off: nat, pos: nat, n: nat)
    requires f.Valid() && f.mem != bits && off + Bytes4(pos + n) <= bits.Length
    modifies f`here, bits
    ensures f.Valid() && f.View() == Skip(old(f.View()), 2 * ((n + 3) / 4))
    ensures bits[..] == PaintAt(old(bits[..]), off, pos, Painted(Nibbles(old(f.View()), 0, n)))
  {
    hide PaintAt, PaintCell, NibbleAt, Skip, Nibbles, Painted;
    ghost var t, m := f.View(), bits[..];
    ghost var vs := Nibbles(t, 0, n);
    PaintNothing(m, off, pos, 0);
    assert Painted(vs[..0]) == Gap<nibble>(0);
    SkipNothing(t);
    var b0, b1, b2, b3 := 0, 0, 0, 0;
    ghost var w := 0;
    for j := 0 to n
      invariant f.Valid() && f.View() == Skip(t, 2 * w) && 4 * w < j + 4 && j <= 4 * w
      invariant j < 4 * w ==>
        b0 == NibbleAt(t, 4 * w - 4) && b1 == NibbleAt(t, 4 * w - 3) &&
        b2 == NibbleAt(t, 4 * w - 2) && b3 == NibbleAt(t, 4 * w - 1)
      invariant bits[..] == PaintAt(m, off, pos, Painted(vs[..j]))
    {
      if j % 4 == 0 {
        b0, b1, b2, b3 := FetchWord(f, t, w);
        w := w + 1;
      }
      Lane(j, w);
      var v := if j % 4 == 0 then b0 else if j % 4 == 1 then b1 else if j % 4 == 2 then b2 else b3;
      assert v == NibbleAt(t, j) == vs[j];
      PaintOne(m, off, pos, vs, j);
      PutNibble(bits, off, pos + j, v);
    }
    assert vs[..n] == vs;
    assert w == (n + 3) / 4;
  }

  lemma PeekShort(t: Tape)
    requires t.Valid()
    ensures Next(t) == Skip(t, 1)
    ensures ShortAt(t, 1) == if Peek(Skip(t, 1)) < 0 then 65535 else Peek(Skip(t, 1))
    ensures Next(Skip(t, 1)) == Skip(t, 2) && Next(Skip(t, 3)) == Skip(t, 4)
  {}

  lemma OpCases(t: Tape)
    requires t.Valid()
    ensures var c, v, op := OctetAt(t, 0), ShortAt(t, 1), OpAt(t);
            if c > 0 then op == Pixels(c, v / 16 % 16, v % 16) && Size(op) == 2
            else if v == 0 then op.EndLine? && Size(op) == 2
            else if v == 1 then op.EndPicture? && Size(op) == 2
            else if v == 2 then op == Delta(OctetAt(t, 2), OctetAt(t, 3)) && Size(op) == 4
            else op.Literal? && op.values == Nibbles(Skip(t, 2), 0, v) && Size(op) == 2 + 2 * ((v + 3) / 4)
  {}

  /** The body of the decoding loop: the operation at the cursor, at column `pos`. */
  method ReadOp(f: MemRW, bits: array<byte>, off: nat, pos: nat, width: nat) returns (pos': nat, flag: Flag, over: bool)
    requires f.Valid() && f.mem != bits && pos <= width
    requires off + Bytes4(pos + |PaintedBy(OpAt(f.View()), pos, width)|) <= bits.Length
    modifies f`here, bits
    ensures var op := OpAt(old(f.View()));
            && f.Valid() && f.View() == Skip(old(f.View()), Size(op))
            && over == Overruns(op, pos, width)
            && (!over ==> pos' == pos + |Expand(op, pos)|)
            && flag == (if op.EndLine? then BmpLine else if op.EndPicture? then BmpEnd else BmpErr)
            && bits[..] == PaintAt(old(bits[..]), off, pos, PaintedBy(op, pos, width))
  {
    hide PaintAt, PaintCell, Painted, Gap, Nibbles, RunFrom, OpAt, Size, Skip, OctetAt, ShortAt, Bytes4;
    ghost var t := f.View();
    OpCases(t);
    PeekShort(t);
    var count := GetOctet(f);
    var val := f.Getc();
    SkipSkip(t, 1, 0);
    SkipSkip(t, 1, 1);
    flag, pos', over := BmpErr, pos, false;
    if count > 0 {
      var v := if val < 0 then 65535 else val;
      pos', over := FillRun(bits, off, pos, width, Pixels(count, v / 16 % 16, v % 16));
    } else if val == 0 {
      PaintNothing(bits[..], off, pos, 0);
      flag := BmpLine;
    } else if val == 1 {
      PaintNothing(bits[..], off, pos, 0);
      flag := BmpEnd;
    } else if val == 2 {
      count := GetOctet(f);
      val := f.Getc();
      SkipSkip(t, 2, 0); SkipSkip(t, 2, 1); SkipSkip(t, 3, 0); SkipSkip(t, 3, 1);
      PaintNothing(bits[..], off, pos, count);
      pos' := pos + count;
    } else {
      var n := if val < 0 then 65535 else val;
      FillLiteral(f, bits, off, pos, n);
      SkipSkip(t, 2, 2 * ((n + 3) / 4));
      pos' := pos + n;
    }
  }

  lemma DecodeStep(r: Outcome<nibble>, done: Cells<nibble>, t: Tape, width: nat)
    requires t.Valid() && |done| <= width && Continues(r, done, Decode(t, |done|, width))
    ensures var op := OpAt(t);
            var next, more := Skip(t, Size(op)), done + PaintedBy(op, |done|, width);
            && |more| <= |r.cells|
            && (op.EndLine? ==> r == Outcome(BmpLine, next, more))
            && (op.EndPicture? ==> r == Outcome(BmpEnd, next, more))
            && (Overruns(op, |done|, width) ==> r == Outcome(BmpErr, next, more))
            && (!op.EndLine? && !op.EndPicture? && !Overruns(op, |done|, width) ==>
                 && Continues(r, more, Decode(next, |more|, width))
                 && Left(next, |more|, width) < Left(t, |done|, width))
  {
    hide Decode, OpAt, Skip, RunFrom, Painted, Gap;
    Progress(t, |done|, width);
    DecodeUnfolds(t, |done|, width, OpAt(t));
  }

  method ReadRle4(f: MemRW, bits: array<byte>, off: nat, pitch: nat, width: nat) returns (flag: Flag)
    requires f.Valid() && f.mem != bits
    requires off + Bytes4(|Decode(f.View(), 0, width).cells|) <= bits.Length
    modifies f`here, bits
    ensures var r := Decode(old(f.View()), 0, width);
            && f.Valid() && f.View() == r.tape && flag == r.flag
            && bits[..] == PaintAt(old(bits[..]), off, 0, r.cells)
  {
    hide Decode, OpAt, Expand, Skip, Size, PaintAt;
    ghost var r, m := Decode(f.View(), 0, width), bits[..];
    ghost var done: Cells<nibble> := [];
    var pos := 0;
    flag := BmpErr;
    PaintNothing(m, off, 0, 0);
    assert done == Gap(0);
    while pos <= width && flag == BmpErr
      invariant f.Valid() && pos == |done| <= |r.cells| && off + Bytes4(|r.cells|) <= |m|
      invariant flag == BmpErr ==> Continues(r, done, Decode(f.View(), pos, width))
      invariant flag != BmpErr ==> r == Outcome(flag, f.View(), done)
      invariant bits[..] == PaintAt(m, off, 0, done)
      decreases flag == BmpErr, Left(f.View(), pos, width)
    {
      ghost var cells := PaintedBy(OpAt(f.View()), pos, width);
      DecodeStep(r, done, f.View(), width);
      PaintMore(m, off, 0, done, cells);
      var over;
      pos, flag, over := ReadOp(f, bits, off, pos, width);
      done := done + cells;
      if over {
        return flag;
      }
    }
    if flag == BmpErr {
      DecodePast(f.View(), pos, width);
      assert done + [] == done;
    }
  }

  // ---------- bounds on every stream ----------

  /** Decoding fails exactly when it has painted or skipped past the width: a success
      paints columns 0 to `width - 1` only. */
  lemma {:induction false} ErrorIffPassed(t: Tape, pos: nat, width: nat)
    requires t.Valid()
    ensures var r := Decode(t, pos, width);
            && (r.flag == BmpErr <==> pos + |r.cells| > width)
            && (pos <= width ==> pos + |r.cells| <= width + 65535)
            && r.tape.bytes == t.bytes && t.pos <= r.tape.pos
    decreases Left(t, pos, width)
  {
    if pos <= width {
      var op := OpAt(t);
      var next, after := Skip(t, Size(op)), pos + |Expand(op, pos)|;
      Progress(t, pos, width);
      DecodeUnfolds(t, pos, width, op);
      assert |Expand(op, pos)| <= 65535;
      if !op.EndLine? && !op.EndPicture? && !Overruns(op, pos, width) {
        hide Decode, OpAt, Expand;
        if after <= width {
          ErrorIffPassed(next, after, width);
        } else {
          DecodePast(next, after, width);
        }
      }
    }
  }

  // ---------- decoding inverts serialisation ----------

  ghost predicate WellFormed(op: Op) {
    match op
    case Pixels(count, _, _) => 0 < count < 256
    case Literal(values, pad) => 3 <= |values| < 256 && |pad| == PadSize(|values|)
    case Delta(dx, dy) => dx < 256 && dy < 256
    case _ => true
  }

  /** Two pixels to an octet; a missing last one is zero. */
  function PackRow(px: seq<nibble>): (s: seq<byte>)
    ensures |s| == Bytes4(|px|)
  {
    seq<byte>(Bytes4(|px|), k requires 0 <= k < Bytes4(|px|) =>
      Join(px[2 * k], if 2 * k + 1 < |px| then px[2 * k + 1] else 0))
  }

  function Serialise(op: Op): (s: seq<byte>)
    requires WellFormed(op)
    ensures |s| == Size(op)
  {
    match op
    case Pixels(count, even, odd) => [count, Join(even, odd)]
    case Literal(values, pad) => [0, |values|] + PackRow(values + pad)
    case Delta(dx, dy) => [0, 2, dx, dy]
    case EndLine => [0, 0]
    case EndPicture => [0, 1]
  }

  lemma NibbleOfPacked(t: Tape, px: seq<nibble>, q: seq<byte>, j: nat)
    requires t.Valid() && t.Rest() == PackRow(px) + q && j < |px|
    ensures NibbleAt(t, j) == px[j]
  {
    hide Skip;
    OctetsOfRest(t, PackRow(px), q);
    var k := j / 2;
    assert OctetAt(t, k) == Octets(t, |PackRow(px)|)[k] == PackRow(px)[k];
    assert PackRow(px)[k] == Join(px[2 * k], if 2 * k + 1 < |px| then px[2 * k + 1] else 0);
    assert j == 2 * k || j == 2 * k + 1;
  }

  /** Nibbles read back from packed pixels. */
  lemma NibblesOfPacked(t: Tape, px: seq<nibble>, q: seq<byte>, from: nat, n: nat)
    requires t.Valid() && t.Rest() == PackRow(px) + q && from + n <= |px|
    ensures Nibbles(t, from, n) == px[from..from + n]
  {
    hide NibbleAt, PackRow;
    var ns := Nibbles(t, from, n);
    forall i | 0 <= i < n ensures ns[i] == px[from + i] {
      NibbleOfPacked(t, px, q, from + i);
    }
  }

  lemma HeadAt(t: Tape, s: seq<byte>, q: seq<byte>)
    requires t.Valid() && t.Rest() == s + q && |s| >= 2
    ensures forall i :: 0 <= i < |s| ==> OctetAt(t, i) == s[i]
    ensures ShortAt(t, 1) == s[1]
    ensures Skip(t, |s|).Rest() == q && Skip(t, |s|).pos == t.pos + |s|
  {
    OctetsOfRest(t, s, q);
    assert forall i :: 0 <= i < |s| ==> Octets(t, |s|)[i] == OctetAt(t, i);
    assert t.Rest()[1] == t.bytes[t.pos + 1];
  }

  lemma LiteralAt(t: Tape, values: seq<nibble>, pad: seq<nibble>, q: seq<byte>)
    requires t.Valid() && |values| < 256
    requires t.Rest() == ([0, |values|] + PackRow(values + pad)) + q
    ensures Nibbles(Skip(t, 2), 0, |values|) == values
    ensures Nibbles(Skip(t, 2), |values|, |pad|) == pad
  {
    hide PackRow, Nibbles, Skip;
    var px := values + pad;
    ConcatAssoc([0, |values|], PackRow(px), q);
    OctetsOfRest(t, [0, |values|], PackRow(px) + q);
    NibblesOfPacked(Skip(t, 2), px, q, 0, |values|);
    NibblesOfPacked(Skip(t, 2), px, q, |values|, |pad|);
    assert px[..|values|] == values && px[|values|..|values| + |pad|] == pad;
  }

  lemma OpAtSerialised(t: Tape, op: Op, q: seq<byte>)
    requires t.Valid() && WellFormed(op) && t.Rest() == Serialise(op) + q
    ensures OpAt(t) == op
    ensures Skip(t, Size(op)).Rest() == q && Skip(t, Size(op)).pos == t.pos + Size(op)
  {
    hide PackRow, Nibbles, Skip, OctetAt, ShortAt;
    HeadAt(t, Serialise(op), q);
    if op.Literal? {
      LiteralAt(t, op.values, op.pad, q);
    }
  }

  ghost predicate IsLine(ops: seq<Op>) {
    forall i :: 0 <= i < |ops| ==> WellFormed(ops[i]) && !ops[i].EndLine? && !ops[i].EndPicture?
  }

  function ExpandAll(ops: seq<Op>, pos: nat): Cells<nibble> {
    if ops == [] then []
    else Expand(ops[0], pos) + ExpandAll(ops[1..], pos + |Expand(ops[0], pos)|)
  }

  function LineBytes(ops: seq<Op>, end: Op): seq<byte>
    requires IsLine(ops) && WellFormed(end)
  {
    if ops == [] then Serialise(end) else Serialise(ops[0]) + LineBytes(ops[1..], end)
  }

  function FlagOf(end: Op): Flag {
    if end.EndLine? then BmpLine else BmpEnd
  }

  lemma FirstOp(t: Tape, ops: seq<Op>, end: Op, q: seq<byte>)
    requires t.Valid() && IsLine(ops) && WellFormed(end) && ops != []
    requires t.Rest() == LineBytes(ops, end) + q
    ensures var next, rest := Skip(t, Size(ops[0])), ops[1..];
            && OpAt(t) == ops[0] && next.Rest() == LineBytes(rest, end) + q
            && Skip(t, |LineBytes(ops, end)|) == Skip(next, |LineBytes(rest, end)|)
  {
    hide OpAt, Skip, Serialise, Size, WellFormed;
    var op, rest := ops[0], ops[1..];
    ConcatAssoc(Serialise(op), LineBytes(rest, end), q);
    OpAtSerialised(t, op, LineBytes(rest, end) + q);
    SkipSkip(t, Size(op), |LineBytes(rest, end)|);
  }

  lemma LastOp(t: Tape, end: Op, q: seq<byte>)
    requires t.Valid() && WellFormed(end) && t.Rest() == LineBytes([], end) + q
    ensures OpAt(t) == end && Skip(t, |LineBytes([], end)|).Rest() == q
    ensures |LineBytes([], end)| == Size(end)
  {
    OpAtSerialised(t, end, q);
  }

  /** A line that stays within the width decodes to its flag and its expansion, and
      the stream is left just past the end code. */
  lemma {:induction false} DecodeInvertsSerialise(t: Tape, ops: seq<Op>, end: Op, q: seq<byte>, pos: nat, width: nat)
    requires t.Valid() && IsLine(ops) && (end.EndLine? || end.EndPicture?)
    requires t.Rest() == LineBytes(ops, end) + q
    requires pos + |ExpandAll(ops, pos)| <= width
    ensures Decode(t, pos, width).flag == FlagOf(end)
    ensures Decode(t, pos, width).tape == Skip(t, |LineBytes(ops, end)|)
    ensures Decode(t, pos, width).cells == ExpandAll(ops, pos)
    ensures Skip(t, |LineBytes(ops, end)|).Rest() == q
    decreases |ops|
  {
    hide Decode, OpAt, Skip, Expand, Size, LineBytes;
    if ops == [] {
      LastOp(t, end, q);
      DecodeUnfolds(t, pos, width, end);
    } else {
      var next, after := Skip(t, Size(ops[0])), pos + |Expand(ops[0], pos)|;
      FirstOp(t, ops, end, q);
      DecodeUnfolds(t, pos, width, ops[0]);
      RunSize(ops[0], pos);
      DecodeInvertsSerialise(next, ops[1..], end, q, after, width);
    }
  }

  // ---------- agreement with the row packer ----------

  /** The saver's packer: sets an octet at every even pixel and or-s the odd one in. */
  method Get16CScanline(bits: array<byte>, off: nat, scanline: array<byte>, pixels: nat)
    requires bits != scanline && off + pixels <= bits.Length && Bytes4(pixels) <= scanline.Length
    modifies scanline
    ensures scanline[..] == PackRow(LowNibbles(bits[off..off + pixels])) + old(scanline[Bytes4(pixels)..])
  {
    hide PackRow, PaintAt, Painted, LowNibbles;
    ghost var px, m := LowNibbles(bits[off..off + pixels]), scanline[..];
    var at := 0;
    PaintNothing(m, 0, 0, 0);
    assert Painted(px[..0]) == Gap<nibble>(0);
    for i := 0 to pixels
      invariant at == i / 2 && scanline[..] == PaintAt(m, 0, 0, Painted(px[..i]))
    {
      PaintOne(m, 0, 0, px, i);
      LowNibbleAt(bits[off..off + pixels], i);
      if i % 2 == 0 {
        scanline[at] := Join(bits[off + i] % 16, 0);
      } else {
        scanline[at] := OrByte(scanline[at], bits[off + i] % 16);
        at := at + 1;
      }
    }
    PaintIsPack(m, 0, px, pixels);
    assert px[..pixels] == px && m[..0] == [];
  }

  lemma LowNibbleAt(s: seq<byte>, i: nat)
    requires i < |s|
    ensures LowNibbles(s)[i] == s[i] % 16
  {}

  function LowNibbles(s: seq<byte>): (r: seq<nibble>)
    ensures |r| == |s|
  {
    seq<nibble>(|s|, i requires 0 <= i < |s| => s[i] % 16)
  }

  lemma PackNext(px: seq<nibble>, i: nat)
    requires i < |px|
    ensures i % 2 == 0 ==> PackRow(px[..i + 1]) == PackRow(px[..i]) + [Join(px[i], 0)]
    ensures i % 2 == 1 ==> PackRow(px[..i + 1]) == PackRow(px[..i])[..i / 2] + [Join(px[i - 1], px[i])]
    ensures i % 2 == 1 ==> PackRow(px[..i])[i / 2] == Join(px[i - 1], 0)
  {}

  lemma RowGrows(m: seq<byte>, at: nat, row: seq<byte>, b: byte)
    requires at + |row| < |m|
    ensures Splice(m, at, row)[at + |row| := b] == Splice(m, at, row + [b])
  {}

  lemma RowChanges(m: seq<byte>, at: nat, row: seq<byte>, k: nat, b: byte)
    requires k + 1 == |row| && at + |row| <= |m|
    ensures Splice(m, at, row)[at + k] == row[k]
    ensures Splice(m, at, row)[at + k := b] == Splice(m, at, row[..k] + [b])
  {}

  /** One more pixel painted at the end of a packed row. */
  lemma PaintCellPacks(m: seq<byte>, at: nat, px: seq<nibble>, i: nat)
    requires i < |px| && at + Bytes4(i + 1) <= |m|
    ensures PaintCell(Splice(m, at, PackRow(px[..i])), at, i, Some(px[i])) == Splice(m, at, PackRow(px[..i + 1]))
  {
    hide PackRow, OrByte, Join, Splice;
    PackNext(px, i);
    var row := PackRow(px[..i]);
    if i % 2 == 0 {
      RowGrows(m, at, row, Join(px[i], 0));
    } else {
      OrNibble(px[i - 1], px[i]);
      RowChanges(m, at, row, i / 2, Join(px[i - 1], px[i]));
    }
  }

  /** Painting a row of pixels from column 0 leaves exactly the packed row. */
  lemma {:induction false} PaintIsPack(m: seq<byte>, at: nat, px: seq<nibble>, i: nat)
    requires i <= |px| && at + Bytes4(i) <= |m|
    ensures PaintAt(m, at, 0, Painted(px[..i])) == Splice(m, at, PackRow(px[..i]))
  {
    if i == 0 {
      assert Painted(px[..0]) == [];
    } else {
      hide PaintAt, PaintCell, PackRow, Splice;
      PaintIsPack(m, at, px, i - 1);
      PaintOne(m, at, 0, px, i - 1);
      PaintCellPacks(m, at, px, i - 1);
    }
  }

  ghost predicate DeltaFree(ops: seq<Op>) {
    IsLine(ops) && forall i :: 0 <= i < |ops| ==> !ops[i].Delta?
  }

  /** The pixels of a delta-free line that starts at column `pos`. */
  function PixelsOf(ops: seq<Op>, pos: nat): seq<nibble> {
    if ops == [] then []
    else
      var px := OpPixels(ops[0], pos);
      px + PixelsOf(ops[1..], pos + |px|)
  }

  function OpPixels(op: Op, pos: nat): seq<nibble> {
    match op
    case Pixels(_, _, _) => RunFrom(op, pos)
    case Literal(values, _) => values
    case _ => []
  }

  lemma PaintedJoins(a: seq<nibble>, b: seq<nibble>)
    ensures Painted(a + b) == Painted(a) + Painted(b)
  {}

  lemma ExpandIsPixels(op: Op, pos: nat)
    requires !op.Delta?
    ensures Expand(op, pos) == Painted(OpPixels(op, pos))
  {}

  lemma NothingPainted()
    ensures Painted<nibble>([]) == []
  {}

  lemma {:induction false} ExpansionIsPixels(ops: seq<Op>, pos: nat)
    requires DeltaFree(ops)
    ensures ExpandAll(ops, pos) == Painted(PixelsOf(ops, pos))
    decreases |ops|
  {
    hide Expand, OpPixels, Painted;
    if ops != [] {
      ExpandIsPixels(ops[0], pos);
      ExpansionIsPixels(ops[1..], pos + |OpPixels(ops[0], pos)|);
      PaintedJoins(OpPixels(ops[0], pos), PixelsOf(ops[1..], pos + |OpPixels(ops[0], pos)|));
    } else {
      NothingPainted();
    }
  }

  /** Any delta-free line, however it is cut into runs and absolute chunks, decodes
      to the octets that the packer makes of its pixels. */
  lemma DecodedRowIsPackedRow(t: Tape, ops: seq<Op>, end: Op, q: seq<byte>, width: nat, m: seq<byte>, at: nat)
    requires t.Valid() && DeltaFree(ops) && (end.EndLine? || end.EndPicture?)
    requires t.Rest() == LineBytes(ops, end) + q
    requires |PixelsOf(ops, 0)| <= width && at + Bytes4(|PixelsOf(ops, 0)|) <= |m|
    ensures var px, r := PixelsOf(ops, 0), Decode(t, 0, width);
            && r.flag == FlagOf(end) && |r.cells| == |px| && r.tape.Rest() == q
            && PaintAt(m, at, 0, r.cells) == Splice(m, at, PackRow(px))
  {
    hide Decode, PaintAt, PixelsOf, ExpandAll, LineBytes, Skip;
    var px := PixelsOf(ops, 0);
    ExpansionIsPixels(ops, 0);
    DecodeInvertsSerialise(t, ops, end, q, 0, width);
    PaintIsPack(m, at, px, |px|);
    assert px[..|px|] == px;
  }

  // ---------- the meaning of the octets ----------

  /** `r` is what `rest` decodes, behind `n` cells. */
  ghost predicate Behind(r: Outcome<nibble>, n: nat, rest: Outcome<nibble>) {
    r.flag == rest.flag && r.tape == rest.tape && |r.cells| == n + |rest.cells| && r.cells[n..] == rest.cells
  }

  lemma FirstOctets(t: Tape, s: seq<byte>, q: seq<byte>)
    requires t.Valid() && t.Rest() == s + q && |s| >= 2
    ensures t.pos + |s| <= |t.bytes| && Skip(t, |s|) == t.(pos := t.pos + |s|)
    ensures forall i :: 0 <= i < |s| ==> OctetAt(t, i) == s[i]
    ensures ShortAt(t, 1) == s[1]
  {
    hide OctetAt, ShortAt;
    assert |t.Rest()| == |s| + |q|;
    HeadAt(t, s, q);
  }

  /** `n` and `b` stand for `n` pixels: at an even column the high nibble of `b`, at an odd
      one the low nibble. A run that passes the width stops right after column `width`. */
  lemma RunOctets(t: Tape, n: byte, b: byte, q: seq<byte>, pos: nat, width: nat)
    requires t.Valid() && t.Rest() == [n, b] + q && 0 < n && pos <= width
    ensures t.pos + 2 <= |t.bytes|
    ensures var r, next := Decode(t, pos, width), t.(pos := t.pos + 2);
            && (pos + n as nat <= width ==> Behind(r, n as nat, Decode(next, pos + n as nat, width)))
            && (pos + n as nat > width ==> r.flag == BmpErr && r.tape == next && |r.cells| == width + 1 - pos)
            && forall i :: 0 <= i < n as nat && pos + i <= width ==>
                 r.cells[i] == Some(if (pos + i) % 2 == 0 then b as int / 16 else b as int % 16)
  {
    hide Decode, Skip, OctetAt, ShortAt;
    FirstOctets(t, [n, b], q);
    DecodeUnfolds(t, pos, width, OpAt(t));
  }

  /** 0, `n` and whole words stand for `n` pixels, high nibbles first. */
  lemma LiteralOctets(t: Tape, n: byte, octets: seq<byte>, q: seq<byte>, pos: nat, width: nat)
    requires 3 <= n && |octets| == 2 * ((n as nat + 3) / 4) && pos <= width
    requires t.Valid() && t.Rest() == ([0, n] + octets) + q
    ensures t.pos + 2 + |octets| <= |t.bytes|
    ensures var r := Decode(t, pos, width);
            && Behind(r, n as nat, Decode(t.(pos := t.pos + 2 + |octets|), pos + n as nat, width))
            && forall i :: 0 <= i < n as nat ==>
                 r.cells[i] == Some(if i % 2 == 0 then octets[i / 2] as int / 16 else octets[i / 2] as int % 16)
  {
    hide Decode, Skip, OctetAt, ShortAt;
    var s := [0, n] + octets;
    FirstOctets(t, s, q);
    forall i | 0 <= i < |octets| ensures OctetAt(Skip(t, 2), i) == octets[i] {
      SkipSkip(t, 2, i);
      assert s[2 + i] == octets[i];
    }
    DecodeUnfolds(t, pos, width, OpAt(t));
  }

  /** 0, 2, `dx` and `dy` skip `dx` columns. */
  lemma DeltaOctets(t: Tape, dx: byte, dy: byte, q: seq<byte>, pos: nat, width: nat)
    requires t.Valid() && t.Rest() == [0, 2, dx, dy] + q && pos <= width
    ensures t.pos + 4 <= |t.bytes|
    ensures var r := Decode(t, pos, width);
            && Behind(r, dx as nat, Decode(t.(pos := t.pos + 4), pos + dx as nat, width))
            && forall i :: 0 <= i < dx as nat ==> r.cells[i] == None
  {
    hide Decode, Skip, OctetAt, ShortAt;
    FirstOctets(t, [0, 2, dx, dy], q);
    DecodeUnfolds(t, pos, width, OpAt(t));
  }

  /** 0 and 0 end the line, 0 and 1 the picture. */
  lemma EndOctets(t: Tape, code: byte, q: seq<byte>, pos: nat, width: nat)
    requires t.Valid() && t.Rest() == [0, code] + q && code <= 1 && pos <= width
    ensures t.pos + 2 <= |t.bytes|
    ensures var r := Decode(t, pos, width);
            && r.flag == (if code == 0 then BmpLine else BmpEnd)
            && r.tape == t.(pos := t.pos + 2) && r.cells == []
  {
    hide Decode, Skip, OctetAt, ShortAt;
    FirstOctets(t, [0, code], q);
    DecodeUnfolds(t, pos, width, OpAt(t));
  }
}
