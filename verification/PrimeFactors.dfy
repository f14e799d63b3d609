/** `prime_factors`: trial division with a shrinking bound and a growing array. */
module PrimeFactors {
  import opened Bytes
  import opened Primes

  const DEFSZ_FACTORS := 4
  const UINT_MAX := 0xFFFF_FFFF

  /** `fs` lists exactly the primes dividing `n`, in ascending order. */
  ghost predicate ListsPrimeDivisors(fs: seq<nat>, n: nat) {
    Ascending(fs) && forall p: nat :: p in fs <==> IsPrime(p) && Divides(p, n)
  }

  ghost predicate NoDivisorBelow(u: nat, m: nat) {
    forall d :: 2 <= d < u ==> !Divides(d, m)
  }

  lemma LeastDivisorIsPrime(u: nat, m: nat)
    requires 2 <= u && Divides(u, m) && NoDivisorBelow(u, m)
    ensures IsPrime(u)
  {
    forall d | 2 <= d < u ensures !Divides(d, u) {
      if Divides(d, u) { DividesTransitive(d, u, m); }
    }
  }

  /** Dividing by the prime `u` loses no prime divisor but possibly `u` itself. */
  lemma DivideOut(u: nat, m: nat)
    requires IsPrime(u) && 0 < m && Divides(u, m)
    ensures 0 < m / u < m
    ensures forall q :: IsPrime(q) ==> (Divides(q, m) <==> q == u || Divides(q, m / u))
    ensures NoDivisorBelow(u, m) ==> NoDivisorBelow(u, m / u)
  {
    var k := Quotient(u, m);
    assert 0 < k;
    MulMonotone(k, 2, u);
    DividesByQuotient(k, m, u);
    forall q | IsPrime(q) ensures Divides(q, m) <==> q == u || Divides(q, k) {
      if Divides(q, m) {
        EuclidsLemma(q, u, k);
        if Divides(q, u) { PrimeDividesPrime(q, u); }
      }
      if Divides(q, k) { DividesMultiple(q, k, u); }
    }
    if NoDivisorBelow(u, m) {
      forall d | 2 <= d < u ensures !Divides(d, k) {
        if Divides(d, k) { DividesTransitive(d, k, m); }
      }
    }
  }

  /** The bound never reaches the end of the `unsigned` range, so `u++` cannot wrap. */
  lemma NextFits(u: nat, m: nat)
    requires 2 <= u <= m <= UINT_MAX && NoDivisorBelow(u, m)
    ensures u < UINT_MAX
  {
    assert UINT_MAX % 3 == 0;
    if u == UINT_MAX { assert Divides(3, m); }
  }

  method PrimeFactors(n: nat) returns (factors: array?<nat>, nrFactors: nat, ghost residual: nat)
    requires n <= UINT_MAX
    ensures n < 2 ==> factors == null && nrFactors == 0
    ensures n >= 2 ==> factors != null && nrFactors <= factors.Length && residual == 1
    ensures n >= 2 ==> ListsPrimeDivisors(factors[..nrFactors], n)
  {
    var natural, sz := n, DEFSZ_FACTORS;
    residual := n;
    if natural < 2 {
      return null, 0, n;
    }
    var room := new nat[sz];
    nrFactors := 0;
    var u := 2;
    while u <= natural
      invariant 2 <= u <= UINT_MAX && 1 <= natural <= n && NoDivisorBelow(u, natural)
      invariant sz == room.Length && nrFactors <= sz && fresh(room)
      invariant Ascending(room[..nrFactors]) && forall i :: 0 <= i < nrFactors ==> room[i] < u
      invariant forall p: nat :: IsPrime(p) ==> (Divides(p, n) <==> p in room[..nrFactors] || Divides(p, natural))
      invariant forall p: nat :: p in room[..nrFactors] ==> IsPrime(p)
      decreases natural - u
    {
      NextFits(u, natural);
      if natural % u == 0 {
        LeastDivisorIsPrime(u, natural);
        ghost var fs := room[..nrFactors];
        DivideOut(u, natural);
        natural := natural / u;
        while natural % u == 0
          invariant 1 <= natural <= n && NoDivisorBelow(u, natural)
          invariant forall p: nat :: IsPrime(p) ==> (Divides(p, n) <==> p in fs || p == u || Divides(p, natural))
          invariant room[..nrFactors] == fs
          decreases natural
        {
          DivideOut(u, natural);
          natural := natural / u;
        }
        if nrFactors >= sz {
          sz := sz + DEFSZ_FACTORS;
          var bigger := new nat[sz];
          forall i | 0 <= i < nrFactors {
            bigger[i] := room[i];
          }
          room := bigger;
          assert room[..nrFactors] == fs;
        }
        room[nrFactors] := u;
        nrFactors := nrFactors + 1;
        assert room[..nrFactors] == fs + [u];
      }
      u := u + 1;
    }
    if natural > 1 {
      DividesByQuotient(natural, natural, 1);
      assert false;
    }
    forall p: nat | IsPrime(p) ensures !Divides(p, 1) {
      if Divides(p, 1) { DivisorBound(p, 1); }
    }
    factors, residual := room, natural;
  }
}
