/** Octets, and the bit and modular arithmetic the C sources do on them. */
module Bytes {
  type byte = b: int | 0 <= b < 256

  datatype Option<+T> = None | Some(value: T) {
    function GetOr(default: T): T {
      match this
      case Some(v) => v
      case None => default
    }
  }

  lemma ConcatAssoc<T>(a: seq<T>, b: seq<T>, c: seq<T>)
    ensures (a + b) + c == a + (b + c)
  {}

  function Pow2(k: nat): (p: nat)
    ensures 1 <= p
  {
    if k == 0 then 1 else 2 * Pow2(k - 1)
  }

  /** Conversion to a 32-bit `int`. */
  function ToInt32(d: int): int {
    (d + 0x8000_0000) % 0x1_0000_0000 - 0x8000_0000
  }

  lemma SmallIntFits(d: int)
    requires -0x8000_0000 <= d <= 0x7FFF_FFFF
    ensures ToInt32(d) == d
  {
    ModUnique(d + 0x8000_0000, 0x1_0000_0000, 0, d + 0x8000_0000);
  }

  /** The C operator `^` on non-negative operands, bit by bit. */
  function Xor(a: nat, b: nat): nat {
    if a == 0 && b == 0 then 0 else 2 * Xor(a / 2, b / 2) + (a + b) % 2
  }

  lemma {:induction false} XorBound(a: nat, b: nat, k: nat)
    requires a < Pow2(k) && b < Pow2(k)
    ensures Xor(a, b) < Pow2(k)
  {
    if k != 0 {
      XorBound(a / 2, b / 2, k - 1);
    }
  }

  lemma XorBits(a: nat, b: nat)
    ensures Xor(a, b) / 2 == Xor(a / 2, b / 2) && Xor(a, b) % 2 == (a + b) % 2
  {}

  lemma {:induction false} XorTwice(a: nat, b: nat)
    ensures Xor(Xor(a, b), b) == a
  {
    if a != 0 || b != 0 {
      XorTwice(a / 2, b / 2);
      var x := Xor(a, b);
      XorBits(a, b);
      XorBits(x, b);
      SameBits(a, b, x, Xor(x, b));
    }
  }

  lemma SameBits(a: nat, b: nat, x: nat, y: nat)
    requires x % 2 == (a + b) % 2 && y % 2 == (x + b) % 2 && y / 2 == a / 2
    ensures y == a
  {}

  lemma {:induction false} XorCommutes(a: nat, b: nat)
    ensures Xor(a, b) == Xor(b, a)
  {
    if a != 0 || b != 0 {
      XorCommutes(a / 2, b / 2);
    }
  }

  /** The C operator `|` on non-negative operands, bit by bit. */
  function Or(a: nat, b: nat): nat {
    if a == 0 && b == 0 then 0
    else 2 * Or(a / 2, b / 2) + if a % 2 == 1 || b % 2 == 1 then 1 else 0
  }

  /** Disjoint bits: or-ing into a shifted value is adding. */
  lemma {:induction false} OrShifted(hi: nat, lo: nat, k: nat)
    requires lo < Pow2(k)
    ensures Or(hi * Pow2(k), lo) == hi * Pow2(k) + lo
  {
    if k == 0 {
      OrZero(hi);
    } else {
      var p := Pow2(k - 1);
      assert hi * (2 * p) == 2 * (hi * p);
      OrShifted(hi, lo / 2, k - 1);
    }
  }

  lemma {:induction false} OrZero(a: nat)
    ensures Or(a, 0) == a
  {
    if a != 0 {
      OrZero(a / 2);
    }
  }

  lemma {:induction false} OrBound(a: nat, b: nat, k: nat)
    requires a < Pow2(k) && b < Pow2(k)
    ensures Or(a, b) < Pow2(k)
  {
    if k != 0 {
      OrBound(a / 2, b / 2, k - 1);
    }
  }

  /** Or-ing a small value leaves the digits above it. */
  lemma {:induction false} OrLow(hi: nat, lo: nat, v: nat, k: nat)
    requires lo < Pow2(k) && v < Pow2(k)
    ensures Or(hi * Pow2(k) + lo, v) == hi * Pow2(k) + Or(lo, v)
  {
    if k == 0 {
      OrZero(hi);
    } else {
      var p := Pow2(k - 1);
      assert hi * (2 * p) == 2 * (hi * p);
      var a := hi * (2 * p) + lo;
      assert a / 2 == hi * p + lo / 2 && a % 2 == lo % 2;
      OrLow(hi, lo / 2, v / 2, k - 1);
    }
  }

  /** `a | b` on two octets. */
  function OrByte(a: byte, b: byte): byte {
    OrBound(a, b, 8);
    Or(a, b)
  }

  type nibble = n: int | 0 <= n < 16

  /** Two nibbles in an octet. */
  function Join(hi: nibble, lo: nibble): (b: byte)
    ensures b / 16 == hi && b % 16 == lo
  {
    var h: int, l: int := hi, lo;
    h * 16 + l
  }

  /** Or-ing a nibble into an octet whose low half is clear. */
  lemma OrNibble(hi: nibble, lo: nibble)
    ensures OrByte(Join(hi, 0), lo) == Join(hi, lo)
  {
    assert Pow2(4) == 16;
    OrShifted(hi, lo, 4);
  }

  // ---------- little-endian words ----------

  function Le2(v: nat): (s: seq<byte>)
    ensures |s| == 2
  {
    [v % 256, v / 256 % 256]
  }

  /** The low four octets of a word, as writing it with size 4 emits them. */
  function Le4(v: nat): (s: seq<byte>)
    ensures |s| == 4
  {
    [v % 256, v / 0x100 % 256, v / 0x1_0000 % 256, v / 0x100_0000 % 256]
  }

  // ---------- modular arithmetic ----------

  lemma ModUnique(v: int, m: int, q: int, r: int)
    requires 0 <= r < m && v == m * q + r
    ensures v % m == r && v / m == q
  {
    var q', r' := v / m, v % m;
    assert v == m * q' + r' && 0 <= r' < m;
    assert m * (q - q') == r' - r;
    if q > q' {
      MulMonotone(m, 1, q - q');
    } else if q < q' {
      MulMonotone(m, q - q', -1);
    }
  }

  lemma MulMonotone(m: int, a: int, b: int)
    requires 0 <= m && a <= b
    ensures m * a <= m * b
  {}

  lemma MulStep(n: nat, p: nat)
    requires 0 < n
    ensures n * p == (n - 1) * p + p && (n - 1) * p <= n * p
  {}

  lemma Distribute(x: int, a: int, b: int)
    ensures x * a + x * b == x * (a + b)
  {}

  lemma AddMod(a: int, b: int, m: int)
    requires 0 < m
    ensures (a % m + b % m) % m == (a + b) % m
  {
    var s := a % m + b % m;
    assert a + b == m * (a / m + b / m + s / m) + s % m;
    ModUnique(a + b, m, a / m + b / m + s / m, s % m);
  }

  lemma AddMultiples(x: int, a: int, b: int, m: int)
    requires 0 < m
    ensures ((x * a) % m + (x * b) % m) % m == (x * (a + b)) % m
  {
    AddMod(x * a, x * b, m);
    Distribute(x, a, b);
  }

  lemma AddModRight(a: int, b: int, m: int)
    requires 0 < m
    ensures (a + b % m) % m == (a + b) % m
  {
    var s := a + b % m;
    assert a + b == m * (b / m + s / m) + s % m;
    ModUnique(a + b, m, b / m + s / m, s % m);
  }

  lemma MulMod(a: int, b: int, m: int)
    requires 0 < m
    ensures ((a % m) * b) % m == (a * b) % m
  {
    var s := (a % m) * b;
    var q, t := a / m, s / m;
    assert a * b == (m * q + a % m) * b;
    assert (m * q + a % m) * b == (m * q) * b + s;
    assert (m * q) * b == m * (q * b);
    assert m * (q * b) + m * t == m * (q * b + t);
    ModUnique(a * b, m, q * b + t, s % m);
  }

  /** Replaces the memory from `at` on. */
  function Splice(m: seq<byte>, at: nat, s: seq<byte>): (r: seq<byte>)
    requires at + |s| <= |m|
    ensures |r| == |m|
  {
    m[..at] + s + m[at + |s|..]
  }
}
