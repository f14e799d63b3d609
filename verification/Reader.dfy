/** Octets, words and double words read from a stream. A read at the end of the
    stream yields `EOF`, which becomes 255 in an octet. */
module Reader {
  import opened Bytes
  import opened MemStream

  /** The tape `n` characters further on, as far as there are any. */
  function Skip(t: Tape, n: nat): (r: Tape)
    requires t.Valid()
    ensures r.Valid() && r.bytes == t.bytes && r.Room() <= t.Room()
  {
    if t.pos + n <= |t.bytes| then t.(pos := t.pos + n) else t.(pos := |t.bytes|)
  }

  /** The octet that the `i`-th character read from now on becomes. */
  function OctetAt(t: Tape, i: nat): byte
    requires t.Valid()
  {
    if t.pos + i < |t.bytes| then t.bytes[t.pos + i] else 255
  }

  function Octets(t: Tape, n: nat): (s: seq<byte>)
    requires t.Valid()
    ensures |s| == n && forall i :: 0 <= i < n ==> s[i] == OctetAt(t, i)
  {
    seq(n, i requires 0 <= i => OctetAt(t, i))
  }

  function WordAt(t: Tape, i: nat): nat
    requires t.Valid()
  {
    OctetAt(t, i) + 256 * OctetAt(t, i + 1)
  }

  function DwordAt(t: Tape, i: nat): nat
    requires t.Valid()
  {
    WordAt(t, i) + 0x1_0000 * WordAt(t, i + 2)
  }

  lemma SkipNothing(t: Tape)
    requires t.Valid()
    ensures Skip(t, 0) == t
  {}

  lemma SkipSkip(t: Tape, m: nat, n: nat)
    requires t.Valid()
    ensures Skip(Skip(t, m), n) == Skip(t, m + n)
    ensures OctetAt(Skip(t, m), n) == OctetAt(t, m + n)
  {}

  /** The same view, given what is left on the tape. */
  lemma OctetsOfRest(t: Tape, s: seq<byte>, q: seq<byte>)
    requires t.Valid() && t.Rest() == s + q
    ensures Octets(t, |s|) == s
    ensures Skip(t, |s|).Rest() == q && Skip(t, |s|).pos == t.pos + |s|
  {
    forall i | 0 <= i < |s| ensures OctetAt(t, i) == s[i] {
      assert t.Rest()[i] == t.bytes[t.pos + i];
    }
    var r := Skip(t, |s|);
    assert r.Rest() == t.Rest()[|s|..];
  }

  /** A character converted to `unsigned char`. */
  function ToOctet(c: int): byte
    requires -1 <= c < 256
  {
    if c < 0 then 255 else c
  }

  method GetOctet(f: MemRW) returns (b: byte)
    requires f.Valid()
    modifies f`here
    ensures f.Valid() && f.View() == Skip(old(f.View()), 1) && b == OctetAt(old(f.View()), 0)
  {
    var c := f.Getc();
    b := ToOctet(c);
  }

  method GetW(f: MemRW) returns (w: nat)
    requires f.Valid()
    modifies f`here
    ensures f.Valid() && f.View() == Skip(old(f.View()), 2) && w == WordAt(old(f.View()), 0)
  {
    ghost var t := f.View();
    var lo: int := GetOctet(f);
    var hi: int := GetOctet(f);
    SkipSkip(t, 1, 0);
    SkipSkip(t, 1, 1);
    w := lo + 256 * hi;
  }

  method GetL(f: MemRW) returns (w: nat)
    requires f.Valid()
    modifies f`here
    ensures f.Valid() && f.View() == Skip(old(f.View()), 4) && w == DwordAt(old(f.View()), 0)
  {
    ghost var t := f.View();
    var lo := GetW(f);
    var hi := GetW(f);
    SkipSkip(t, 2, 0);
    SkipSkip(t, 2, 1);
    SkipSkip(t, 2, 2);
    w := lo + 0x1_0000 * hi;
  }

  lemma AtSkip(t: Tape, m: nat, i: nat)
    requires t.Valid()
    ensures OctetAt(Skip(t, m), i) == OctetAt(t, m + i)
    ensures WordAt(Skip(t, m), i) == WordAt(t, m + i)
    ensures DwordAt(Skip(t, m), i) == DwordAt(t, m + i)
  {}

  // the same reads, placed relative to where a record starts

  method GetOctetAt(f: MemRW, ghost t: Tape, ghost k: nat) returns (b: byte)
    requires f.Valid() && t.Valid() && f.View() == Skip(t, k)
    modifies f`here
    ensures f.Valid() && f.View() == Skip(t, k + 1) && b == OctetAt(t, k)
  {
    b := GetOctet(f);
    AtSkip(t, k, 0);
    SkipSkip(t, k, 1);
  }

  method GetWAt(f: MemRW, ghost t: Tape, ghost k: nat) returns (w: nat)
    requires f.Valid() && t.Valid() && f.View() == Skip(t, k)
    modifies f`here
    ensures f.Valid() && f.View() == Skip(t, k + 2) && w == WordAt(t, k)
  {
    w := GetW(f);
    AtSkip(t, k, 0);
    SkipSkip(t, k, 2);
  }

  method GetLAt(f: MemRW, ghost t: Tape, ghost k: nat) returns (w: nat)
    requires f.Valid() && t.Valid() && f.View() == Skip(t, k)
    modifies f`here
    ensures f.Valid() && f.View() == Skip(t, k + 4) && w == DwordAt(t, k)
  {
    w := GetL(f);
    AtSkip(t, k, 0);
    SkipSkip(t, k, 4);
  }
}
