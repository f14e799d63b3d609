/** What the two run-length decoders share: a decoded line as a list of cells. */
module Rle {
  import opened Bytes
  import opened MemStream

  datatype Flag = BmpErr | BmpLine | BmpEnd

  /** The columns a decoder has passed: painted ones, and ones a delta skipped. */
  type Cells<T> = seq<Option<T>>

  datatype Outcome<T> = Outcome(flag: Flag, tape: Tape, cells: Cells<T>)

  /** `r` is what `rest` decodes, behind the cells already `done`. */
  ghost predicate Continues<T>(r: Outcome<T>, done: Cells<T>, rest: Outcome<T>) {
    r.flag == rest.flag && r.tape == rest.tape && r.cells == done + rest.cells
  }

  function Painted<T>(vs: seq<T>): (c: Cells<T>)
    ensures |c| == |vs|
  {
    seq(|vs|, i requires 0 <= i < |vs| => Some(vs[i]))
  }

  function Gap<T>(n: nat): (c: Cells<T>)
    ensures |c| == n
  {
    seq(n, _ => None)
  }

  function Repeat<T>(v: T, n: nat): (s: seq<T>)
    ensures |s| == n
  {
    seq(n, _ => v)
  }

  /** Octets left and columns left: what every operation uses up. */
  function Left(t: Tape, pos: nat, width: nat): nat
    requires t.Valid()
  {
    t.Room() + if pos <= width then width + 1 - pos else 0
  }
}
