/** The memory stream of `rwops.c`: a byte buffer with a cursor. */
module MemStream {
  import opened Bytes

  /** The stream as a value: the bytes between `base` and `stop`, and the cursor. */
  datatype Tape = Tape(bytes: seq<byte>, pos: nat) {
    ghost predicate Valid() {
      pos <= |bytes|
    }

    function Room(): nat
      requires pos <= |bytes|
    {
      |bytes| - pos
    }

    /** What is left to read. */
    function Rest(): seq<byte>
      requires pos <= |bytes|
    {
      bytes[pos..]
    }
  }

  datatype Whence = SeekSet | SeekCur | SeekEnd | Unknown

  const EOF := -1

  // ---------- the operations on values ----------

  function Target(t: Tape, offset: int, whence: Whence): int {
    match whence
    case SeekSet => offset
    case SeekCur => t.pos + offset
    case SeekEnd => |t.bytes| + offset
    case Unknown => t.pos
  }

  function Seek(t: Tape, offset: int, whence: Whence): (r: Tape)
    requires t.Valid()
    ensures r.Valid() && r.bytes == t.bytes
  {
    var p := Target(t, offset, whence);
    t.(pos := if p < 0 then 0 else if p > |t.bytes| then |t.bytes| else p)
  }

  /** The three origins are the start, the cursor and the end; beyond an end of the buffer
      the cursor stops there. */
  lemma SeekOrigins(t: Tape, offset: int)
    requires t.Valid()
    ensures Seek(t, offset, SeekCur) == Seek(t, offset + t.pos, SeekSet)
    ensures Seek(t, offset, SeekEnd) == Seek(t, offset + |t.bytes|, SeekSet)
    ensures Seek(t, offset, Unknown) == t
    ensures 0 <= offset <= |t.bytes| ==> Seek(t, offset, SeekSet).pos == offset
    ensures offset < 0 ==> Seek(t, offset, SeekSet).pos == 0
    ensures offset > |t.bytes| ==> Seek(t, offset, SeekSet).Room() == 0
  {}

  /** How many whole items a transfer moves. */
  function Items(room: nat, size: nat, count: nat): (n: nat)
    ensures n <= count
  {
    if count * size > room then
      Fewer(room, size, count);
      room / size
    else count
  }

  /** As many as asked for, or as many as there is room for: one more would not fit. */
  lemma ItemsAreMost(room: nat, size: nat, count: nat)
    ensures var n := Items(room, size, count);
            n <= count && n * size <= room && (n < count ==> room < (n + 1) * size)
  {
    if count * size > room {
      Fewer(room, size, count);
      var n := room / size;
      assert (n + 1) * size == n * size + size;
    }
  }

  lemma Fewer(room: nat, size: nat, count: nat)
    requires count * size > room
    ensures 0 < size && room / size < count && (room / size) * size <= room
  {
    assert size == 0 ==> count * size == 0;
    var n := room / size;
    assert room == size * n + room % size;
    if n >= count { MulMonotone(size, count, n); }
  }

  /** How many bytes a transfer moves. */
  function Moved(room: nat, size: nat, count: nat): (k: nat)
    ensures k <= room && k <= count * size
  {
    MovedBound(room, size, count);
    Items(room, size, count) * size
  }

  lemma MovedBound(room: nat, size: nat, count: nat)
    ensures 0 <= Items(room, size, count) * size <= room
    ensures Items(room, size, count) * size <= count * size
  {
    if count * size > room { Fewer(room, size, count); }
    MulMonotone(size, Items(room, size, count), count);
  }

  lemma MovedIsItems(room: nat, size: nat, count: nat)
    ensures Moved(room, size, count) == Items(room, size, count) * size
  {}

  lemma ItemsMoved(room: nat, size: nat, count: nat)
    ensures count * size > room ==> 0 < size && Items(room, size, count) == room / size
    ensures count * size <= room ==> Items(room, size, count) == count
    ensures Moved(room, size, count) == Items(room, size, count) * size
  {
    if count * size > room { Fewer(room, size, count); }
  }

  function ReadData(t: Tape, size: nat, count: nat): seq<byte>
    requires t.Valid()
  {
    t.bytes[t.pos..t.pos + Moved(t.Room(), size, count)]
  }

  function AfterRead(t: Tape, size: nat, count: nat): (r: Tape)
    requires t.Valid()
    ensures r.Valid() && r.bytes == t.bytes
  {
    t.(pos := t.pos + Moved(t.Room(), size, count))
  }

  /** Overwrites what follows the cursor and moves past it. */
  function Put(t: Tape, data: seq<byte>): (r: Tape)
    requires t.Valid() && |data| <= t.Room()
    ensures r.Valid() && |r.bytes| == |t.bytes|
  {
    Tape(t.bytes[..t.pos] + data + t.bytes[t.pos + |data|..], t.pos + |data|)
  }

  function Write(t: Tape, data: seq<byte>, size: nat, count: nat): (r: Tape)
    requires t.Valid() && count * size <= |data|
    ensures r.Valid() && |r.bytes| == |t.bytes|
  {
    Put(t, data[..Moved(t.Room(), size, count)])
  }

  function Ungetc(t: Tape, c: byte): (r: Tape)
    requires t.Valid()
    ensures r.Valid() && |r.bytes| == |t.bytes|
  {
    if t.pos > 0 then Tape(t.bytes[t.pos - 1 := c], t.pos - 1) else t
  }

  /** The character under the cursor, or `EOF`. */
  function Peek(t: Tape): (c: int)
    requires t.Valid()
    ensures -1 <= c < 256
  {
    if t.pos < |t.bytes| then t.bytes[t.pos] else EOF
  }

  function Next(t: Tape): (r: Tape)
    requires t.Valid()
    ensures r.Valid() && r.bytes == t.bytes
  {
    if t.pos < |t.bytes| then t.(pos := t.pos + 1) else t
  }

  // ---------- any run of operations ----------

  datatype StreamOp =
    | OpSeek(offset: int, whence: Whence)
    | OpRead(size: nat, count: nat)
    | OpWrite(data: seq<byte>, wsize: nat, wcount: nat)
    | OpUngetc(c: byte)

  ghost predicate Legal(op: StreamOp) {
    op.OpWrite? ==> op.wcount * op.wsize <= |op.data|
  }

  function Apply(t: Tape, op: StreamOp): Tape
    requires t.Valid() && Legal(op)
  {
    match op
    case OpSeek(offset, whence) => Seek(t, offset, whence)
    case OpRead(size, count) => AfterRead(t, size, count)
    case OpWrite(data, size, count) => Write(t, data, size, count)
    case OpUngetc(c) => Ungetc(t, c)
  }

  function Run(t: Tape, ops: seq<StreamOp>): Tape
    requires t.Valid() && forall op :: op in ops ==> Legal(op)
    decreases |ops|
  {
    if ops == [] then t
    else
      assert ops[0] in ops;
      Run(Apply(t, ops[0]), ops[1..])
  }

  /** No interleaving of operations leaves the buffer or changes its length, and
      without writes and ungets none changes a byte. */
  lemma {:induction false} RunKeepsTape(t: Tape, ops: seq<StreamOp>)
    requires t.Valid() && forall op :: op in ops ==> Legal(op)
    ensures Run(t, ops).Valid() && |Run(t, ops).bytes| == |t.bytes|
    ensures (forall op :: op in ops ==> op.OpSeek? || op.OpRead?) ==> Run(t, ops).bytes == t.bytes
    decreases |ops|
  {
    if ops != [] {
      assert ops[0] in ops;
      RunKeepsTape(Apply(t, ops[0]), ops[1..]);
    }
  }

  // ---------- laws between operations ----------

  /** Whatever is left of the room after a full transfer is what a second one sees. */
  lemma ItemsSplit(room: nat, size: nat, n: nat, m: nat)
    ensures Items(room, size, n + m) == Items(room, size, n) + Items(room - Moved(room, size, n), size, m)
  {
    assert (n + m) * size == n * size + m * size;
    var k := Items(room, size, n);
    if n * size > room {
      Fewer(room, size, n);
      assert (n + m) * size > room;
      assert (k + 1) * size == k * size + size;
      var left := room - k * size;
      assert 0 <= left < size;
      if m > 0 {
        MulMonotone(size, 1, m);
        ModUnique(left, size, 0, left);
      }
    } else if (n + m) * size > room {
      var left := room - n * size;
      Fewer(room, size, n + m);
      Fewer(left, size, m);
      var q, r := left / size, left % size;
      assert room == size * (n + q) + r;
      ModUnique(room, size, n + q, r);
    }
  }

  /** Reading `n` items and then `m` equals reading `n + m`. */
  lemma ReadSplits(t: Tape, size: nat, n: nat, m: nat)
    requires t.Valid()
    ensures ReadData(t, size, n + m) == ReadData(t, size, n) + ReadData(AfterRead(t, size, n), size, m)
    ensures AfterRead(t, size, n + m) == AfterRead(AfterRead(t, size, n), size, m)
  {
    ItemsSplit(t.Room(), size, n, m);
    var k, l := Moved(t.Room(), size, n), Items(t.Room(), size, n);
    MovedIsItems(t.Room(), size, n);
    MovedIsItems(t.Room(), size, n + m);
    MovedIsItems(t.Room() - k, size, m);
    Distribute(size, l, Items(t.Room() - k, size, m));
  }

  /** What was written is what is read back after seeking to where it was written. */
  lemma WriteSeekRead(t: Tape, data: seq<byte>, size: nat, count: nat)
    requires t.Valid() && count * size <= |data|
    ensures var w, n, k := Write(t, data, size, count), Items(t.Room(), size, count), Moved(t.Room(), size, count);
            var back := Seek(w, 0 - k, SeekCur);
            && back.pos == t.pos
            && ReadData(back, size, n) == data[..k]
            && AfterRead(back, size, n) == w
  {
    var n, k := Items(t.Room(), size, count), Moved(t.Room(), size, count);
    var w := Write(t, data, size, count);
    var d: int := k;
    var back := Seek(w, -d, SeekCur);
    MovedIsItems(t.Room(), size, count);
    assert back.Room() == t.Room();
    assert Moved(back.Room(), size, n) == k;
    assert w.bytes[t.pos..t.pos + k] == data[..k];
  }

  /** A character pushed back is the next one read, and reading it restores the cursor. */
  lemma UngetThenRead(t: Tape, c: byte)
    requires t.Valid() && t.pos > 0
    ensures Peek(Ungetc(t, c)) == c && Next(Ungetc(t, c)).pos == t.pos
  {}

  // ---------- the stream object ----------

  class MemRW {
    const mem: array<byte>
    const stop: nat
    var here: nat

    ghost predicate Valid()
      reads this
    {
      here <= stop <= mem.Length
    }

    ghost function View(): (t: Tape)
      reads this, mem
      requires Valid()
      ensures t.Valid()
    {
      Tape(mem[..stop], here)
    }

    /** `MGUI_InitMemRW`. */
    constructor (mem: array<byte>, size: nat)
      requires size <= mem.Length
      ensures this.mem == mem && Valid() && View() == Tape(mem[..size], 0)
    {
      this.mem := mem;
      this.stop := size;
      this.here := 0;
    }

    method SeekTo(offset: int, whence: Whence) returns (r: int)
      requires Valid()
      modifies this`here
      ensures Valid() && View() == Seek(old(View()), offset, whence)
      ensures r == if whence == Unknown then -1 else here
    {
      var newpos: int;
      match whence {
        case SeekSet => newpos := offset;
        case SeekCur => newpos := here + offset;
        case SeekEnd => newpos := stop + offset;
        case Unknown => return -1;
      }
      if newpos < 0 {
        newpos := 0;
      }
      if newpos > stop {
        newpos := stop;
      }
      here := newpos;
      r := here;
    }

    /** `memcpy` of the next `k` bytes into `ptr` at `off`, then past them. */
    method CopyOut(ptr: array<byte>, off: nat, k: nat)
      requires Valid() && ptr != mem && k <= View().Room() && off + k <= ptr.Length
      modifies this`here, ptr
      ensures Valid() && View() == old(View()).(pos := old(here) + k)
      ensures ptr[..] == old(ptr[..off]) + old(View()).bytes[old(here)..old(here) + k] + old(ptr[off + k..])
    {
      ghost var before, tail, data := ptr[..off], ptr[off + k..], mem[..stop][here..here + k];
      forall i | 0 <= i < k {
        ptr[off + i] := mem[here + i];
      }
      assert ptr[..] == before + data + tail;
      here := here + k;
    }

    /** `memcpy` of `data` to the cursor, then past it. */
    method CopyIn(data: seq<byte>)
      requires Valid() && |data| <= View().Room()
      modifies this`here, mem
      ensures Valid() && View() == Put(old(View()), data) && mem[stop..] == old(mem[stop..])
    {
      var k := |data|;
      ghost var before, tail := mem[..stop], mem[stop..];
      forall i | 0 <= i < k {
        mem[here + i] := data[i];
      }
      ghost var want := before[..here] + data + before[here + k..];
      forall i | 0 <= i < stop ensures mem[i] == want[i] {
        assert i >= here + k ==> want[i] == before[i];
      }
      assert mem[..stop] == want;
      assert mem[stop..] == tail;
      here := here + k;
    }

    /** Reads into `ptr` at `off`. */
    method Read(ptr: array<byte>, off: nat, size: nat, maxnum: nat) returns (num: nat)
      requires Valid() && ptr != mem
      requires off + Moved(View().Room(), size, maxnum) <= ptr.Length
      modifies this`here, ptr
      ensures Valid() && View() == AfterRead(old(View()), size, maxnum)
      ensures num == Items(old(View()).Room(), size, maxnum)
      ensures ptr[..] == old(ptr[..off]) + ReadData(old(View()), size, maxnum)
                         + old(ptr[off + Moved(View().Room(), size, maxnum)..])
    {
      hide Items, Moved;
      num := maxnum;
      ItemsMoved(View().Room(), size, maxnum);
      if here + num * size > stop {
        num := (stop - here) / size;
      }
      CopyOut(ptr, off, num * size);
    }

    method WriteFrom(data: seq<byte>, size: nat, count: nat) returns (num: nat)
      requires Valid() && count * size <= |data|
      modifies this`here, mem
      ensures Valid() && View() == Write(old(View()), data, size, count)
      ensures mem[stop..] == old(mem[stop..])
      ensures num == Items(old(View()).Room(), size, count)
    {
      hide Items, Moved;
      num := count;
      ItemsMoved(View().Room(), size, count);
      if here + num * size > stop {
        num := (stop - here) / size;
      }
      CopyIn(data[..num * size]);
    }

    method Unget(c: byte) returns (r: int)
      requires Valid()
      modifies this`here, mem
      ensures Valid() && View() == Ungetc(old(View()), c)
      ensures r == if old(here) > 0 then c else EOF
    {
      if here > 0 {
        ghost var before := mem[..stop];
        here := here - 1;
        mem[here] := c;
        assert mem[..stop] == before[here := c];
        return c;
      }
      return EOF;
    }

    method Eof() returns (r: bool)
      requires Valid()
      ensures r <==> View().Room() == 0
    {
      r := here >= stop;
    }

    /** `MGUI_RWgetc`: one item of size 1, or `EOF`. */
    method Getc() returns (c: int)
      requires Valid()
      modifies this`here
      ensures Valid() && View() == Next(old(View())) && c == Peek(old(View()))
    {
      var cell := new byte[1];
      var num := Read(cell, 0, 1, 1);
      if num == 0 {
        return EOF;
      }
      return cell[0];
    }
  }
}
