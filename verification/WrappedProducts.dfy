/** Products of two `unsigned` numbers that leave 32 bits, as far as the sieve meets them. */
module WrappedProducts {
  import opened Bytes
  import opened Primes

  const WORD := 0x1_0000_0000

  /** The product as the machine computes it. */
  function Wrapped(i: nat, j: nat): (r: nat)
    ensures r < WORD
  {
    i * j % WORD
  }

  lemma NoWrap(i: nat, j: nat)
    requires i * j < WORD
    ensures Wrapped(i, j) == i * j
  {
    ModUnique(i * j, WORD, 0, i * j);
  }

  /** The largest bound for which every product of the sieve is in range. */
  const LARGEST := 65537

  /** The first prime that the sieve loses, and the prime whose square wraps to it. */
  const LOST := 203897
  const THIEF := 92683

  lemma TrialDivision(n: nat, b: nat)
    requires 2 <= n < b * b
    requires forall d :: 2 <= d < b ==> n % d != 0
    ensures IsPrime(n)
  {
    if !IsPrime(n) {
      var p := LeastPrimeFactor(n);
      if p >= b {
        MulMonotone(p, b, p);
        MulMonotone(b, b, p);
      }
    }
  }

  lemma LargestIsPrime()
    ensures IsPrime(LARGEST)
  {
    assert forall k :: 2 <= k < 257 ==> 65537 % k != 0;
    TrialDivision(65537, 257);
  }

  lemma ThiefIsPrime()
    ensures IsPrime(THIEF)
  {
    assert forall k :: 2 <= k < 305 ==> 92683 % k != 0;
    TrialDivision(92683, 305);
  }

  lemma LostIsPrime()
    ensures IsPrime(LOST)
  {
    assert forall k :: 2 <= k < 452 ==> 203897 % k != 0;
    TrialDivision(203897, 452);
  }

  /** The square of one prime wraps to another, larger one. */
  lemma ThiefHitsLost()
    ensures IsPrime(THIEF) && IsPrime(LOST) && THIEF < LOST && Wrapped(THIEF, THIEF) == LOST
  {
    ThiefIsPrime();
    LostIsPrime();
  }

  // ---------- which squares wrap to small numbers ----------

  lemma Between(i: nat, q: nat, lo: nat, hi: nat)
    requires WORD * q <= i * i < WORD * q + LOST
    requires 0 < lo && (lo - 1) * (lo - 1) < WORD * q && WORD * q + LOST <= (hi + 1) * (hi + 1)
    ensures lo <= i <= hi
  {
    if i < lo {
      MulMonotone(i, i, lo - 1);
      MulMonotone(lo - 1, i, lo - 1);
    }
    if i > hi {
      MulMonotone(hi + 1, hi + 1, i);
      MulMonotone(i, hi + 1, i);
    }
  }

  lemma Quotients(i: nat) returns (q: nat)
    requires 65536 <= i < LOST && Wrapped(i, i) < LOST
    ensures 1 <= q <= 9 && WORD * q <= i * i < WORD * q + LOST
  {
    q := i * i / WORD;
    MulMonotone(65536, 65536, i);
    MulMonotone(i, 65536, i);
    MulMonotone(i, i, 203896);
    MulMonotone(203896, i, 203896);
    assert i * i == WORD * q + i * i % WORD;
  }

  /** The squares next to 65536 times the roots of 1 to 9. */
  predicate Candidate(i: nat) {
    i == 65536 || i == 65537 || i == 92682 || i == 113512 || i == 131072 || i == 146543 ||
    i == 160530 || i == 173392 || i == 185364 || i == 196608
  }

  lemma SquareWindows(i: nat)
    requires 65536 <= i < LOST && Wrapped(i, i) < LOST
    ensures Candidate(i)
  {
    hide Wrapped;
    var q := Quotients(i);
    match q
    case 1 => Between(i, 1, 65536, 65537);
    case 2 => Between(i, 2, 92682, 92682);
    case 3 => Between(i, 3, 113512, 113512);
    case 4 => Between(i, 4, 131072, 131072);
    case 5 => Between(i, 5, 146543, 146543);
    case 6 => Between(i, 6, 160530, 160530);
    case 7 => Between(i, 7, 173392, 173392);
    case 8 => Between(i, 8, 185364, 185364);
    case _ => Between(i, 9, 196608, 196608);
  }

  lemma EvenIsNoPrime(n: nat)
    requires n > 2 && n % 2 == 0
    ensures !IsPrime(n)
  {
    assert Divides(2, n);
  }

  lemma PrimeCandidates(i: nat)
    requires Candidate(i) && IsPrime(i)
    ensures i == 65537 || i == 146543
  {
    if i != 65537 && i != 146543 {
      EvenIsNoPrime(i);
    }
  }

  /** Where a prime beyond 65535 stores a wrapped product below the first lost prime, it is
      in the first or second round, and at a number that is composite or passed already. */
  lemma WrappedStoresAreHarmless(i: nat, j: nat, maxn: nat)
    requires IsPrime(i) && 65536 <= i <= j <= i + 2 && j < maxn < LOST
    requires Wrapped(i, i) <= maxn && Wrapped(i, j) <= maxn
    ensures j <= i + 1 && (Wrapped(i, j) < i || !IsPrime(Wrapped(i, j)))
  {
    SquareWindows(i);
    PrimeCandidates(i);
    if i == 65537 {
      assert Wrapped(65537, 65537) == 131073 && Wrapped(65537, 65538) == 196610 && Wrapped(65537, 65539) == 262147;
      assert Divides(3, 131073);
      EvenIsNoPrime(196610);
    } else {
      assert Wrapped(146543, 146543) == 14369 && Wrapped(146543, 146544) == 160912 && Wrapped(146543, 146545) == 307455;
      EvenIsNoPrime(160912);
    }
  }

  // ---------- products that stay in range ----------

  /** A product that the guard evaluates: it is the square of `i`, or its predecessor did
      not exceed `maxn`. */
  lemma ProductFits(i: nat, j: nat, maxn: nat)
    requires IsPrime(i) && i <= j < maxn <= LARGEST && (j == i || i * (j - 1) <= maxn)
    ensures i * j < WORD
  {
    if i == 65536 {
      EvenIsNoPrime(65536);
    }
    SmallProductFits(i, j, maxn);
  }

  lemma SmallProductFits(i: nat, j: nat, maxn: nat)
    requires i < 65536 && maxn < LOST && (j == i || (i < j && i * (j - 1) <= maxn))
    ensures i * j < WORD
  {
    if j == i {
      MulMonotone(i, i, 65535);
      MulMonotone(65535, i, 65535);
    } else {
      MulStep(j, i);
      assert i * j == i * (j - 1) + i;
    }
  }
}
