/** `read_RLE8_compressed_image`: one line of the 8-bit run-length format. */
module Rle8 {
  import opened Bytes
  import opened MemStream
  import opened Reader
  import opened Rle

  datatype Op =
    | Pixels(count: nat, value: byte)
    | Literal(values: seq<byte>, pad: byte)
    | Delta(dx: nat, dy: nat)
    | EndLine
    | EndPicture

  // ---------- what a line means ----------

  /** The operation at the cursor. */
  function OpAt(t: Tape): (op: Op)
    requires t.Valid()
    ensures op.Pixels? ==> 0 < op.count
    ensures op.Literal? ==> 3 <= |op.values|
  {
    var count, val := OctetAt(t, 0), OctetAt(t, 1);
    if count > 0 then Pixels(count, val)
    else if val == 0 then EndLine
    else if val == 1 then EndPicture
    else if val == 2 then Delta(OctetAt(t, 2), OctetAt(t, 3))
    else Literal(Octets(Skip(t, 2), val), if val % 2 == 1 then OctetAt(t, 2 + val) else 0)
  }

  /** The number of octets an operation takes. */
  function Size(op: Op): nat {
    match op
    case Literal(values, _) => 2 + |values| + |values| % 2
    case Delta(_, _) => 4
    case _ => 2
  }

  function Expand(op: Op): Cells<byte> {
    match op
    case Pixels(count, value) => Painted(Repeat(value, count))
    case Literal(values, _) => Painted(values)
    case Delta(dx, _) => Gap(dx)
    case _ => []
  }

  lemma Progress(t: Tape, pos: nat, width: nat)
    requires t.Valid() && pos <= width
    ensures var op := OpAt(t);
            !op.EndLine? && !op.EndPicture? ==>
              Left(Skip(t, Size(op)), pos + |Expand(op)|, width) < Left(t, pos, width)
  {}

  /** Decoding from column `pos` on. */
  function Decode(t: Tape, pos: nat, width: nat): (r: Outcome<byte>)
    requires t.Valid()
    ensures r.tape.Valid()
    decreases Left(t, pos, width)
  {
    if pos > width then Outcome(BmpErr, t, [])
    else
      var op := OpAt(t);
      var next := Skip(t, Size(op));
      if op.EndLine? then Outcome(BmpLine, next, [])
      else if op.EndPicture? then Outcome(BmpEnd, next, [])
      else
        Progress(t, pos, width);
        var rest := Decode(next, pos + |Expand(op)|, width);
        rest.(cells := Expand(op) + rest.cells)
  }

  /** The memory after painting the cells from address `at` on. */
  function PaintAt(m: seq<byte>, at: nat, cells: Cells<byte>): (r: seq<byte>)
    requires at + |cells| <= |m|
    ensures |r| == |m|
  {
    seq(|m|, i requires 0 <= i < |m| =>
      if at <= i < at + |cells| && cells[i - at].Some? then cells[i - at].value else m[i])
  }

  lemma PaintMore(m: seq<byte>, at: nat, cells: Cells<byte>, more: Cells<byte>)
    requires at + |cells| + |more| <= |m|
    ensures PaintAt(m, at, cells + more) == PaintAt(PaintAt(m, at, cells), at + |cells|, more)
  {}

  lemma PaintNothing(m: seq<byte>, at: nat, n: nat)
    requires at + n <= |m|
    ensures PaintAt(m, at, Gap(n)) == m
  {}

  // ---------- the decoder ----------

  method FillRun(bits: array<byte>, at: nat, count: nat, val: byte)
    requires at + count <= bits.Length
    modifies bits
    ensures bits[..] == PaintAt(old(bits[..]), at, Painted(Repeat(val, count)))
  {
    for j := 0 to count
      invariant forall i :: 0 <= i < bits.Length ==> bits[i] == if at <= i < at + j then val else old(bits[i])
    {
      bits[at + j] := val;
    }
  }

  /** Absolute mode: `n` octets, and one more to end on a word boundary. */
  method FillLiteral(f: MemRW, bits: array<byte>, at: nat, n: nat)
    requires f.Valid() && f.mem != bits && at + n <= bits.Length
    modifies f`here, bits
    ensures f.Valid() && f.View() == Skip(old(f.View()), n + n % 2)
    ensures bits[..] == PaintAt(old(bits[..]), at, Painted(Octets(old(f.View()), n)))
  {
    ghost var t := f.View();
    for j := 0 to n
      invariant f.Valid() && f.View() == Skip(t, j)
      invariant forall i :: 0 <= i < bits.Length ==>
        bits[i] == if at <= i < at + j then OctetAt(t, i - at) else old(bits[i])
    {
      var val0 := GetOctet(f);
      SkipSkip(t, j, 0);
      SkipSkip(t, j, 1);
      bits[at + j] := val0;
    }
    if n % 2 == 1 {
      var val0 := GetOctet(f);
      SkipSkip(t, n, 1);
    }
  }

  lemma OpCases(t: Tape)
    requires t.Valid()
    ensures var c, v, op := OctetAt(t, 0), OctetAt(t, 1), OpAt(t);
            if c > 0 then op == Pixels(c, v) && Size(op) == 2
            else if v == 0 then op.EndLine? && Size(op) == 2
            else if v == 1 then op.EndPicture? && Size(op) == 2
            else if v == 2 then op == Delta(OctetAt(t, 2), OctetAt(t, 3)) && Size(op) == 4
            else op.Literal? && op.values == Octets(Skip(t, 2), v) && Size(op) as int == 2 + v as int + v as int % 2
  {}

  /** The body of the decoding loop: the operation at the cursor, at column `pos`. */
  method ReadOp(f: MemRW, bits: array<byte>, at: nat, pos: nat) returns (pos': nat, flag: Flag)
    requires f.Valid() && f.mem != bits
    requires at + |Expand(OpAt(f.View()))| <= bits.Length
    modifies f`here, bits
    ensures var op := OpAt(old(f.View()));
            && f.Valid() && f.View() == Skip(old(f.View()), Size(op))
            && pos' == pos + |Expand(op)|
            && flag == (if op.EndLine? then BmpLine else if op.EndPicture? then BmpEnd else BmpErr)
            && bits[..] == PaintAt(old(bits[..]), at, Expand(op))
  {
    hide PaintAt, Painted, Gap, Repeat, Octets, OpAt, Size, Skip, OctetAt;
    ghost var t := f.View();
    OpCases(t);
    var count := GetOctet(f);
    var val := GetOctet(f);
    SkipSkip(t, 1, 0);
    SkipSkip(t, 1, 1);
    flag, pos' := BmpErr, pos;
    if count > 0 {
      FillRun(bits, at, count, val);
      pos' := pos + count;
    } else if val == 0 {
      PaintNothing(bits[..], at, 0);
      flag := BmpLine;
    } else if val == 1 {
      PaintNothing(bits[..], at, 0);
      flag := BmpEnd;
    } else if val == 2 {
      count := GetOctet(f);
      val := GetOctet(f);
      SkipSkip(t, 2, 0); SkipSkip(t, 2, 1); SkipSkip(t, 3, 0); SkipSkip(t, 3, 1);
      PaintNothing(bits[..], at, count);
      pos' := pos + count;
    } else {
      var n: nat := val;
      FillLiteral(f, bits, at, n);
      SkipSkip(t, 2, n + n % 2);
      pos' := pos + n;
    }
  }

  lemma DecodeUnfolds(t: Tape, pos: nat, width: nat, op: Op)
    requires t.Valid() && pos <= width && op == OpAt(t)
    ensures var next, r := Skip(t, Size(op)), Decode(t, pos, width);
            if op.EndLine? then r.flag == BmpLine && r.tape == next && r.cells == []
            else if op.EndPicture? then r.flag == BmpEnd && r.tape == next && r.cells == []
            else Continues(r, Expand(op), Decode(next, pos + |Expand(op)|, width))
  {}

  lemma DecodePast(t: Tape, pos: nat, width: nat)
    requires t.Valid() && width < pos
    ensures Decode(t, pos, width) == Outcome(BmpErr, t, [])
  {}

  lemma DecodeStep(r: Outcome<byte>, done: Cells<byte>, t: Tape, width: nat)
    requires t.Valid() && |done| <= width && Continues(r, done, Decode(t, |done|, width))
    ensures var op := OpAt(t);
            var next, more := Skip(t, Size(op)), done + Expand(op);
            && |more| <= |r.cells|
            && (op.EndLine? ==> r == Outcome(BmpLine, next, more))
            && (op.EndPicture? ==> r == Outcome(BmpEnd, next, more))
            && (!op.EndLine? && !op.EndPicture? ==>
                 && Continues(r, more, Decode(next, |more|, width))
                 && Left(next, |more|, width) < Left(t, |done|, width))
  {
    hide Decode, OpAt, Skip;
    Progress(t, |done|, width);
    DecodeUnfolds(t, |done|, width, OpAt(t));
  }

  method ReadRle8(f: MemRW, bits: array<byte>, off: nat, pitch: nat, width: nat) returns (flag: Flag)
    requires f.Valid() && f.mem != bits
    requires off + |Decode(f.View(), 0, width).cells| <= bits.Length
    modifies f`here, bits
    ensures var r := Decode(old(f.View()), 0, width);
            && f.Valid() && f.View() == r.tape && flag == r.flag
            && bits[..] == PaintAt(old(bits[..]), off, r.cells)
  {
    hide Decode, OpAt, Expand, Skip, Size, PaintAt;
    ghost var r, m := Decode(f.View(), 0, width), bits[..];
    ghost var done: Cells<byte> := [];
    var pos := 0;
    flag := BmpErr;
    PaintNothing(m, off, 0);
    while pos <= width && flag == BmpErr
      invariant f.Valid() && pos == |done| <= |r.cells| && off + |r.cells| <= |m|
      invariant flag == BmpErr ==> Continues(r, done, Decode(f.View(), pos, width))
      invariant flag != BmpErr ==> r == Outcome(flag, f.View(), done)
      invariant bits[..] == PaintAt(m, off, done)
      decreases flag == BmpErr, Left(f.View(), pos, width)
    {
      ghost var cells := Expand(OpAt(f.View()));
      DecodeStep(r, done, f.View(), width);
      PaintMore(m, off, done, cells);
      pos, flag := ReadOp(f, bits, off + pos, pos);
      done := done + cells;
    }
    if flag == BmpErr {
      DecodePast(f.View(), pos, width);
      assert done + [] == done;
    }
  }

  // ---------- bounds on every stream ----------

  /** Decoding fails exactly when the column has passed the width, and then by at
      most 255: a success paints columns 0 to `width - 1` only. */
  lemma {:induction false} ErrorIffPassed(t: Tape, pos: nat, width: nat)
    requires t.Valid() && pos <= width + 255
    ensures var r := Decode(t, pos, width);
            && (r.flag == BmpErr <==> pos + |r.cells| > width)
            && pos + |r.cells| <= width + 255
            && r.tape.bytes == t.bytes && t.pos <= r.tape.pos
    decreases Left(t, pos, width)
  {
    if pos <= width {
      var op := OpAt(t);
      if !op.EndLine? && !op.EndPicture? {
        Progress(t, pos, width);
        assert |Expand(op)| <= 255;
        ErrorIffPassed(Skip(t, Size(op)), pos + |Expand(op)|, width);
      }
    }
  }

  // ---------- decoding inverts serialisation ----------

  ghost predicate WellFormed(op: Op) {
    match op
    case Pixels(count, _) => 0 < count < 256
    case Literal(values, pad) => 3 <= |values| < 256 && (|values| % 2 == 0 ==> pad == 0)
    case Delta(dx, dy) => dx < 256 && dy < 256
    case _ => true
  }

  function Serialise(op: Op): (s: seq<byte>)
    requires WellFormed(op)
    ensures |s| == Size(op)
  {
    match op
    case Pixels(count, value) => [count, value]
    case Literal(values, pad) => [0, |values|] + values + if |values| % 2 == 1 then [pad] else []
    case Delta(dx, dy) => [0, 2, dx, dy]
    case EndLine => [0, 0]
    case EndPicture => [0, 1]
  }

  /** The decoder sees the operation that was serialised. */
  lemma OpAtSerialised(t: Tape, op: Op, q: seq<byte>)
    requires t.Valid() && WellFormed(op) && t.Rest() == Serialise(op) + q
    ensures OpAt(t) == op
    ensures Skip(t, Size(op)).Rest() == q && Skip(t, Size(op)).pos == t.pos + Size(op)
  {
    var s := Serialise(op);
    OctetsOfRest(t, s, q);
    assert s[0] == Octets(t, |s|)[0] == OctetAt(t, 0) && s[1] == Octets(t, |s|)[1] == OctetAt(t, 1);
    match op
    case Literal(values, pad) =>
      forall i | 0 <= i < |values| ensures OctetAt(Skip(t, 2), i) == values[i] {
        SkipSkip(t, 2, i);
        assert s[2 + i] == Octets(t, |s|)[2 + i];
      }
      assert Octets(Skip(t, 2), |values|) == values;
      if |values| % 2 == 1 { assert s[2 + |values|] == Octets(t, |s|)[2 + |values|]; }
    case Delta(dx, dy) =>
      assert s[2] == Octets(t, |s|)[2] && s[3] == Octets(t, |s|)[3];
    case _ =>
  }

  /** The operations before the end code of a line. */
  ghost predicate IsLine(ops: seq<Op>) {
    forall i :: 0 <= i < |ops| ==> WellFormed(ops[i]) && !ops[i].EndLine? && !ops[i].EndPicture?
  }

  function ExpandAll(ops: seq<Op>): Cells<byte> {
    if ops == [] then [] else Expand(ops[0]) + ExpandAll(ops[1..])
  }

  /** The bytes of a line: its operations and the end code. */
  function LineBytes(ops: seq<Op>, end: Op): seq<byte>
    requires IsLine(ops) && WellFormed(end)
  {
    if ops == [] then Serialise(end) else Serialise(ops[0]) + LineBytes(ops[1..], end)
  }

  function FlagOf(end: Op): Flag {
    if end.EndLine? then BmpLine else BmpEnd
  }

  /** The first operation of a line, and what it leaves to decode. */
  lemma FirstOp(t: Tape, ops: seq<Op>, end: Op, q: seq<byte>)
    requires t.Valid() && IsLine(ops) && WellFormed(end) && ops != []
    requires t.Rest() == LineBytes(ops, end) + q
    ensures var next, rest := Skip(t, Size(ops[0])), ops[1..];
            && OpAt(t) == ops[0] && next.Rest() == LineBytes(rest, end) + q
            && Skip(t, |LineBytes(ops, end)|) == Skip(next, |LineBytes(rest, end)|)
  {
    hide OpAt, Skip, Serialise, Size, WellFormed;
    var op, rest := ops[0], ops[1..];
    ConcatAssoc(Serialise(op), LineBytes(rest, end), q);
    OpAtSerialised(t, op, LineBytes(rest, end) + q);
    SkipSkip(t, Size(op), |LineBytes(rest, end)|);
  }

  lemma LastOp(t: Tape, end: Op, q: seq<byte>)
    requires t.Valid() && WellFormed(end) && t.Rest() == LineBytes([], end) + q
    ensures OpAt(t) == end && Skip(t, |LineBytes([], end)|).Rest() == q
    ensures |LineBytes([], end)| == Size(end)
  {
    OpAtSerialised(t, end, q);
  }

  /** A line that stays within the width decodes to its flag and its expansion, and
      the stream is left just past the end code. */
  lemma {:induction false} DecodeInvertsSerialise(t: Tape, ops: seq<Op>, end: Op, q: seq<byte>, pos: nat, width: nat)
    requires t.Valid() && IsLine(ops) && (end.EndLine? || end.EndPicture?)
    requires t.Rest() == LineBytes(ops, end) + q
    requires pos + |ExpandAll(ops)| <= width
    ensures Decode(t, pos, width).flag == FlagOf(end)
    ensures Decode(t, pos, width).tape == Skip(t, |LineBytes(ops, end)|)
    ensures Decode(t, pos, width).cells == ExpandAll(ops)
    ensures Skip(t, |LineBytes(ops, end)|).Rest() == q
    decreases |ops|
  {
    hide Decode, OpAt, Skip, Expand, Size, LineBytes;
    if ops == [] {
      LastOp(t, end, q);
      DecodeUnfolds(t, pos, width, end);
    } else {
      FirstOp(t, ops, end, q);
      DecodeUnfolds(t, pos, width, ops[0]);
      DecodeInvertsSerialise(Skip(t, Size(ops[0])), ops[1..], end, q, pos + |Expand(ops[0])|, width);
    }
  }

  // ---------- the meaning of the octets ----------

  /** `r` is what `rest` decodes, behind `n` cells. */
  ghost predicate Behind(r: Outcome<byte>, n: nat, rest: Outcome<byte>) {
    r.flag == rest.flag && r.tape == rest.tape && |r.cells| == n + |rest.cells| && r.cells[n..] == rest.cells
  }

  lemma FirstOctets(t: Tape, s: seq<byte>, q: seq<byte>)
    requires t.Valid() && t.Rest() == s + q
    ensures t.pos + |s| <= |t.bytes| && Skip(t, |s|) == t.(pos := t.pos + |s|)
    ensures forall i :: 0 <= i < |s| ==> OctetAt(t, i) == s[i]
  {
    assert |t.Rest()| == |s| + |q|;
    forall i | 0 <= i < |s| ensures OctetAt(t, i) == s[i] {
      assert t.Rest()[i] == t.bytes[t.pos + i];
    }
  }

  /** `n` and `b` stand for `n` pixels `b`. */
  lemma RunOctets(t: Tape, n: byte, b: byte, q: seq<byte>, pos: nat, width: nat)
    requires t.Valid() && t.Rest() == [n, b] + q && 0 < n && pos <= width
    ensures t.pos + 2 <= |t.bytes|
    ensures var r := Decode(t, pos, width);
            && Behind(r, n as nat, Decode(t.(pos := t.pos + 2), pos + n as nat, width))
            && forall i :: 0 <= i < n as nat ==> r.cells[i] == Some(b)
  {
    hide Decode, Skip, OctetAt;
    FirstOctets(t, [n, b], q);
    DecodeUnfolds(t, pos, width, OpAt(t));
  }

  /** 0, `n` and `n` octets, with one more if `n` is odd, stand for these pixels. */
  lemma LiteralOctets(t: Tape, values: seq<byte>, pad: seq<byte>, q: seq<byte>, pos: nat, width: nat)
    requires 3 <= |values| < 256 && |pad| == |values| % 2 && pos <= width
    requires t.Valid() && t.Rest() == ([0, |values|] + values + pad) + q
    ensures t.pos + 2 + |values| + |pad| <= |t.bytes|
    ensures var r := Decode(t, pos, width);
            && Behind(r, |values|, Decode(t.(pos := t.pos + 2 + |values| + |pad|), pos + |values|, width))
            && forall i :: 0 <= i < |values| ==> r.cells[i] == Some(values[i])
  {
    hide Decode, Skip, OctetAt;
    var s := [0, |values|] + values + pad;
    FirstOctets(t, s, q);
    forall i | 0 <= i < |values| ensures OctetAt(Skip(t, 2), i) == values[i] {
      SkipSkip(t, 2, i);
      assert s[2 + i] == values[i];
    }
    DecodeUnfolds(t, pos, width, OpAt(t));
  }

  /** 0, 2, `dx` and `dy` skip `dx` columns. */
  lemma DeltaOctets(t: Tape, dx: byte, dy: byte, q: seq<byte>, pos: nat, width: nat)
    requires t.Valid() && t.Rest() == [0, 2, dx, dy] + q && pos <= width
    ensures t.pos + 4 <= |t.bytes|
    ensures var r := Decode(t, pos, width);
            && Behind(r, dx as nat, Decode(t.(pos := t.pos + 4), pos + dx as nat, width))
            && forall i :: 0 <= i < dx as nat ==> r.cells[i] == None
  {
    hide Decode, Skip, OctetAt;
    FirstOctets(t, [0, 2, dx, dy], q);
    DecodeUnfolds(t, pos, width, OpAt(t));
  }

  /** 0 and 0 end the line, 0 and 1 the picture. */
  lemma EndOctets(t: Tape, code: byte, q: seq<byte>, pos: nat, width: nat)
    requires t.Valid() && t.Rest() == [0, code] + q && code <= 1 && pos <= width
    ensures t.pos + 2 <= |t.bytes|
    ensures var r := Decode(t, pos, width);
            && r.flag == (if code == 0 then BmpLine else BmpEnd)
            && r.tape == t.(pos := t.pos + 2) && r.cells == []
  {
    hide Decode, Skip, OctetAt;
    FirstOctets(t, [0, code], q);
    DecodeUnfolds(t, pos, width, OpAt(t));
  }
}
