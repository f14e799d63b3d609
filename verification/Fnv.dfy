/** The string hash of `str2key`: FNV-1a over the octets of a C string, for both
    sizes of `size_t`. Words are naturals below `modulus`; every operation wraps. */
module Fnv {
  import opened Bytes

  type Octets = seq<byte>

  /** A word size with its FNV constants; `inverse` undoes the multiplication. */
  datatype Params = Params(bits: nat, modulus: nat, prime: nat, init: nat, inverse: nat, sizeMax: nat)

  const FNV64 := Params(64, 0x1_0000_0000_0000_0000, 0x100000001b3, 0xcbf29ce484222325, 0xce965057aff6957b, 0xFFFF_FFFF_FFFF_FFFF)
  const FNV32 := Params(32, 0x1_0000_0000, 0x01000193, 0x811c9dc5, 0x359c449b, 0xFFFF_FFFF)

  ghost predicate Valid(w: Params) {
    && 8 <= w.bits && w.modulus == Pow2(w.bits) && w.init < w.modulus
    && (w.prime * w.inverse) % w.modulus == 1 && w.sizeMax + 1 == w.modulus
  }

  lemma PowStep(k: nat)
    ensures Pow2(k + 4) == 16 * Pow2(k) && Pow2(k + 8) == 256 * Pow2(k)
  {
    assert Pow2(k + 2) == 4 * Pow2(k);
    assert Pow2(k + 4) == 4 * Pow2(k + 2);
    assert Pow2(k + 6) == 4 * Pow2(k + 4);
    assert Pow2(k + 8) == 4 * Pow2(k + 6);
  }

  lemma WordSizes()
    ensures Pow2(8) == 0x100 && Pow2(16) == 0x1_0000
    ensures Pow2(32) == 0x1_0000_0000 && Pow2(64) == 0x1_0000_0000_0000_0000
  {
    PowStep(0); PowStep(8); PowStep(16); PowStep(24);
    PowStep(32); PowStep(40); PowStep(48); PowStep(56);
  }

  lemma InversesAreInverse()
    ensures (0x100000001b3 * 0xce965057aff6957b) % 0x1_0000_0000_0000_0000 == 1
    ensures (0x01000193 * 0x359c449b) % 0x1_0000_0000 == 1
  {}

  lemma ConstantsAreValid()
    ensures Valid(FNV64) && Valid(FNV32)
  {
    WordSizes();
    InversesAreInverse();
  }

  lemma {:induction false} PowSum(a: nat, b: nat)
    ensures Pow2(a + b) == Pow2(a) * Pow2(b)
  {
    if a != 0 {
      PowSum(a - 1, b);
    }
  }

  // ---------- the hash as its definition gives it: xor, then multiply ----------

  function Step(w: Params, h: nat, octet: byte): (k: nat)
    requires 0 < w.modulus
    ensures k < w.modulus
  {
    (Xor(h, octet) * w.prime) % w.modulus
  }

  function Fold(w: Params, h: nat, s: Octets): nat
    requires 0 < w.modulus
  {
    if s == [] then h else Step(w, Fold(w, h, s[..|s| - 1]), s[|s| - 1])
  }

  function Fnv1a(w: Params, s: Octets): nat
    requires 0 < w.modulus
  {
    Fold(w, w.init, s)
  }

  // ---------- the loop body: shifts and additions instead of the product ----------

  function Shl(w: Params, x: nat, k: nat): nat
    requires 0 < w.modulus
  {
    (x * Pow2(k)) % w.modulus
  }

  function Add(w: Params, x: nat, y: nat): nat
    requires 0 < w.modulus
  {
    (x + y) % w.modulus
  }

  function Body64(h: nat, octet: byte): nat {
    var w, x := FNV64, Xor(h, octet);
    Add(w, x, Add(w, Add(w, Add(w, Add(w, Add(w,
      Shl(w, x, 1), Shl(w, x, 4)), Shl(w, x, 5)), Shl(w, x, 7)), Shl(w, x, 8)), Shl(w, x, 40)))
  }

  function Body32(h: nat, octet: byte): nat {
    var w, x := FNV32, Xor(h, octet);
    Add(w, x, Add(w, Add(w, Add(w, Add(w,
      Shl(w, x, 1), Shl(w, x, 4)), Shl(w, x, 7)), Shl(w, x, 8)), Shl(w, x, 24)))
  }

  lemma SmallPowers()
    ensures Pow2(1) == 2 && Pow2(4) == 16 && Pow2(5) == 32 && Pow2(7) == 128 && Pow2(8) == 256
    ensures Pow2(24) == 0x100_0000 && Pow2(40) == 0x100_0000_0000
  {
    PowStep(0); PowStep(1); PowStep(3); PowStep(8); PowStep(16); PowStep(24); PowStep(32);
  }

  /** One more shifted term raises the factor gathered so far. */
  lemma AddShl(w: Params, x: nat, factor: nat, k: nat)
    requires 0 < w.modulus
    ensures Add(w, (x * factor) % w.modulus, Shl(w, x, k)) == (x * (factor + Pow2(k))) % w.modulus
  {
    AddMultiples(x, factor, Pow2(k), w.modulus);
  }

  lemma AddSelf(w: Params, x: nat, factor: nat)
    requires 0 < w.modulus
    ensures Add(w, x, (x * factor) % w.modulus) == (x * (factor + 1)) % w.modulus
  {
    AddModRight(x, x * factor, w.modulus);
    Distribute(x, factor, 1);
  }

  /** Shifting and adding multiplies by the FNV prime modulo 2^64. */
  lemma BodyIsStep64(h: nat, octet: byte)
    ensures Body64(h, octet) == Step(FNV64, h, octet)
  {
    var w, x := FNV64, Xor(h, octet);
    SmallPowers();
    AddShl(w, x, 2, 4);
    AddShl(w, x, 18, 5);
    AddShl(w, x, 50, 7);
    AddShl(w, x, 178, 8);
    AddShl(w, x, 434, 40);
    AddSelf(w, x, 0x100_0000_01b2);
  }

  /** Shifting and adding multiplies by the FNV prime modulo 2^32. */
  lemma BodyIsStep32(h: nat, octet: byte)
    ensures Body32(h, octet) == Step(FNV32, h, octet)
  {
    var w, x := FNV32, Xor(h, octet);
    SmallPowers();
    AddShl(w, x, 2, 4);
    AddShl(w, x, 18, 7);
    AddShl(w, x, 146, 8);
    AddShl(w, x, 402, 24);
    AddSelf(w, x, 0x100_0192);
  }

  // ---------- the C string that is hashed ----------

  /** The number of octets hashed: up to the first NUL, and at most `limit`. */
  function HashedLength(s: Octets, limit: nat): (n: nat)
    requires 0 in s || limit < |s|
    ensures n < |s| && n <= limit
    ensures 0 !in s[..n]
    ensures n == limit || s[n] == 0
  {
    if limit == 0 || s[0] == 0 then 0
    else
      assert s == [s[0]] + s[1..];
      var n := 1 + HashedLength(s[1..], limit - 1);
      assert s[..n] == [s[0]] + s[1..][..n - 1];
      n
  }

  /** A length of 0 means "no limit". */
  function Limit(w: Params, length: nat): nat {
    if length == 0 then w.sizeMax else length
  }

  /** What a caller must provide: memory in which the hash loop stops. */
  predicate Readable(w: Params, str: Option<Octets>, length: nat) {
    length <= w.sizeMax && (str.Some? ==> 0 in str.value || Limit(w, length) < |str.value|)
  }

  function Hashed(w: Params, s: Octets, length: nat): Octets
    requires Readable(w, Some(s), length)
  {
    s[..HashedLength(s, Limit(w, length))]
  }

  /** The memory starts with a C string of this text. A call hashes all of it, or as much
      as a length other than 0 allows. */
  predicate IsText(s: Octets, x: Octets) {
    0 !in x && x + [0] <= s
  }

  lemma {:induction false} TextLength(s: Octets, x: Octets, limit: nat)
    requires IsText(s, x)
    ensures 0 in s && HashedLength(s, limit) == if |x| <= limit then |x| else limit
    decreases |x|
  {
    assert s[|x|] == (x + [0])[|x|] && 0 in s;
    if x != [] {
      assert s[0] == (x + [0])[0] == x[0];
      if limit != 0 {
        assert s[1..][..|x|] == s[..|x| + 1][1..] == x[1..] + [0];
        assert x[0] in x && forall c :: c in x[1..] ==> c in x;
        TextLength(s[1..], x[1..], limit - 1);
      }
    }
  }

  lemma HashedText(w: Params, s: Octets, x: Octets, length: nat)
    requires IsText(s, x) && |x| <= w.sizeMax && length <= w.sizeMax
    ensures Readable(w, Some(s), length)
    ensures Hashed(w, s, length) == x[..if length == 0 || |x| <= length then |x| else length]
  {
    assert s[|x|] == (x + [0])[|x|] && 0 in s;
    TextLength(s, x, Limit(w, length));
    assert s[..|x|] == (x + [0])[..|x|] == x;
    assert forall n :: 0 <= n <= |x| ==> s[..n] == s[..|x|][..n];
  }

  method Str2Key(str: Option<Octets>, length: nat) returns (hval: nat)
    requires Readable(FNV64, str, length)
    ensures str.None? ==> hval == 0
    ensures str.Some? ==> hval == Fnv1a(FNV64, Hashed(FNV64, str.value, length))
    ensures forall x :: str.Some? && IsText(str.value, x) && |x| <= FNV64.sizeMax ==>
      hval == Fnv1a(FNV64, x[..if length == 0 || |x| <= length then |x| else length])
  {
    forall x | str.Some? && IsText(str.value, x) && |x| <= FNV64.sizeMax
      ensures Hashed(FNV64, str.value, length) == x[..if length == 0 || |x| <= length then |x| else length]
    {
      HashedText(FNV64, str.value, x, length);
    }
    hval := FNV64.init;
    if str.None? {
      return 0;
    }
    var s, left, i := str.value, Limit(FNV64, length), 0;
    ghost var n := HashedLength(s, Limit(FNV64, length));
    while s[i] != 0 && left != 0
      invariant 0 <= i <= n && left == Limit(FNV64, length) - i
      invariant hval == Fnv1a(FNV64, s[..i])
      decreases n - i
    {
      if i == n { assert false; }
      assert s[..i + 1][..i] == s[..i];
      BodyIsStep64(hval, s[i]);
      hval := Body64(hval, s[i]);
      i, left := i + 1, left - 1;
    }
    if i < n { assert false; }
  }

  method Str2Key32(str: Option<Octets>, length: nat) returns (hval: nat)
    requires Readable(FNV32, str, length)
    ensures str.None? ==> hval == 0
    ensures str.Some? ==> hval == Fnv1a(FNV32, Hashed(FNV32, str.value, length))
    ensures forall x :: str.Some? && IsText(str.value, x) && |x| <= FNV32.sizeMax ==>
      hval == Fnv1a(FNV32, x[..if length == 0 || |x| <= length then |x| else length])
  {
    forall x | str.Some? && IsText(str.value, x) && |x| <= FNV32.sizeMax
      ensures Hashed(FNV32, str.value, length) == x[..if length == 0 || |x| <= length then |x| else length]
    {
      HashedText(FNV32, str.value, x, length);
    }
    hval := FNV32.init;
    if str.None? {
      return 0;
    }
    var s, left, i := str.value, Limit(FNV32, length), 0;
    ghost var n := HashedLength(s, Limit(FNV32, length));
    while s[i] != 0 && left != 0
      invariant 0 <= i <= n && left == Limit(FNV32, length) - i
      invariant hval == Fnv1a(FNV32, s[..i])
      decreases n - i
    {
      if i == n { assert false; }
      assert s[..i + 1][..i] == s[..i];
      BodyIsStep32(hval, s[i]);
      hval := Body32(hval, s[i]);
      i, left := i + 1, left - 1;
    }
    if i < n { assert false; }
  }

  // ---------- every step is a bijection of the state ----------

  function Unstep(w: Params, k: nat, octet: byte): nat
    requires 0 < w.modulus
  {
    Xor((k * w.inverse) % w.modulus, octet)
  }

  lemma ProductReturns(x: nat, p: nat, q: nat, m: nat)
    requires x < m && (p * q) % m == 1
    ensures ((x * p) % m * q) % m == x
  {
    MulMod(x * p, q, m);
    var pq := p * q;
    assert (x * p) * q == x * pq == pq * x;
    MulMod(pq, x, m);
    ModUnique(x, m, 0, x);
  }

  lemma TimesInverse(w: Params, x: nat)
    requires Valid(w) && x < w.modulus
    ensures ((x * w.prime) % w.modulus * w.inverse) % w.modulus == x
    ensures ((x * w.inverse) % w.modulus * w.prime) % w.modulus == x
  {
    ProductReturns(x, w.prime, w.inverse, w.modulus);
    assert w.inverse * w.prime == w.prime * w.inverse;
    ProductReturns(x, w.inverse, w.prime, w.modulus);
  }

  /** For each octet, a step permutes the words. */
  lemma StepIsABijection(w: Params, h: nat, octet: byte)
    requires Valid(w) && h < w.modulus
    ensures Unstep(w, Step(w, h, octet), octet) == h
    ensures Unstep(w, h, octet) < w.modulus && Step(w, Unstep(w, h, octet), octet) == h
  {
    OctetFits(w, octet);
    XorBound(h, octet, w.bits);
    TimesInverse(w, Xor(h, octet));
    XorTwice(h, octet);
    var k := (h * w.inverse) % w.modulus;
    XorBound(k, octet, w.bits);
    XorTwice(k, octet);
    TimesInverse(w, h);
  }

  lemma OctetFits(w: Params, octet: byte)
    requires Valid(w)
    ensures octet < Pow2(w.bits)
  {
    SmallPowers();
    PowSum(8, w.bits - 8);
    MulMonotone(256, 1, Pow2(w.bits - 8));
  }

  /** A state and an octet determine each other's effect: different octets lead to
      different states. */
  lemma StepSeparatesOctets(w: Params, h: nat, a: byte, b: byte)
    requires Valid(w) && h < w.modulus
    ensures Step(w, h, a) == Step(w, h, b) <==> a == b
  {
    OctetFits(w, a); OctetFits(w, b);
    XorBound(h, a, w.bits); XorBound(h, b, w.bits);
    TimesInverse(w, Xor(h, a)); TimesInverse(w, Xor(h, b));
    XorCommutes(h, a); XorCommutes(h, b);
    XorTwice(a, h); XorTwice(b, h);
  }

  lemma {:induction false} FoldConcat(w: Params, h: nat, s: Octets, t: Octets)
    requires 0 < w.modulus
    ensures Fold(w, h, s + t) == Fold(w, Fold(w, h, s), t)
  {
    if t == [] {
      assert s + t == s;
    } else {
      FoldConcat(w, h, s, t[..|t| - 1]);
      assert (s + t)[..|s + t| - 1] == s + t[..|t| - 1];
    }
  }

  lemma FoldBound(w: Params, h: nat, s: Octets)
    requires 0 < w.modulus && h < w.modulus
    ensures Fold(w, h, s) < w.modulus
  {}

  /** A common suffix can neither create nor remove a collision. */
  lemma {:induction false} SuffixKeepsStatesApart(w: Params, h: nat, k: nat, s: Octets)
    requires Valid(w) && h < w.modulus && k < w.modulus
    ensures Fold(w, h, s) == Fold(w, k, s) <==> h == k
  {
    if s != [] {
      var init, last := s[..|s| - 1], s[|s| - 1];
      SuffixKeepsStatesApart(w, h, k, init);
      FoldBound(w, h, init);
      FoldBound(w, k, init);
      StepIsABijection(w, Fold(w, h, init), last);
      StepIsABijection(w, Fold(w, k, init), last);
    }
  }

  /** Two strings that differ in exactly one octet never collide. */
  lemma OneOctetApartNeverCollide(w: Params, s: Octets, t: Octets, i: nat)
    requires w == FNV64 || w == FNV32
    requires |s| == |t| && i < |s| && s[i] != t[i]
    requires forall j :: 0 <= j < |s| && j != i ==> s[j] == t[j]
    ensures Fnv1a(w, s) != Fnv1a(w, t)
  {
    ConstantsAreValid();
    var p, q := s[..i], s[i + 1..];
    assert s[..i + 1][..i] == p && t[..i + 1][..i] == p;
    assert s == s[..i + 1] + q && t == t[..i + 1] + q;
    FoldConcat(w, w.init, s[..i + 1], q);
    FoldConcat(w, w.init, t[..i + 1], q);
    var g := Fold(w, w.init, p);
    FoldBound(w, w.init, p);
    StepSeparatesOctets(w, g, s[i], t[i]);
    SuffixKeepsStatesApart(w, Step(w, g, s[i]), Step(w, g, t[i]), q);
  }

  /** Two calls on texts of equal length that differ in exactly one octet, and in one that
      is hashed, never give the same key. */
  lemma CallsNeverCollide(w: Params, s: Octets, t: Octets, x: Octets, y: Octets, length: nat, i: nat)
    requires w == FNV64 || w == FNV32
    requires IsText(s, x) && IsText(t, y) && |x| == |y| <= w.sizeMax && length <= w.sizeMax
    requires i < |x| && x[i] != y[i] && (forall j :: 0 <= j < |x| && j != i ==> x[j] == y[j])
    requires length == 0 || i < length
    ensures Readable(w, Some(s), length) && Readable(w, Some(t), length)
    ensures Fnv1a(w, Hashed(w, s, length)) != Fnv1a(w, Hashed(w, t, length))
  {
    hide Fnv1a, Hashed, Readable;
    HashedText(w, s, x, length);
    HashedText(w, t, y, length);
    var n := if length == 0 || |x| <= length then |x| else length;
    OneOctetApartNeverCollide(w, x[..n], y[..n], i);
  }

  /** The key of the empty string is the offset basis, and a key is continued octet by
      octet with an exclusive or and a multiplication by the FNV prime. */
  lemma KeysByOctets(x: Octets, octet: byte)
    ensures Fnv1a(FNV64, []) == 0xcbf29ce484222325 && Fnv1a(FNV32, []) == 0x811c9dc5
    ensures Fnv1a(FNV64, x + [octet]) == Xor(Fnv1a(FNV64, x), octet) * 0x100000001b3 % 0x1_0000_0000_0000_0000
    ensures Fnv1a(FNV32, x + [octet]) == Xor(Fnv1a(FNV32, x), octet) * 0x01000193 % 0x1_0000_0000
  {
    hide Xor;
    assert (x + [octet])[..|x|] == x;
  }
}
