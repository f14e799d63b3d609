/** `EratosthenesSieve`, and its agreement with the factoriser. */
module Sieve {
  import opened Bytes
  import opened Primes
  import opened PrimeFactors
  import opened WrappedProducts

  /** `k` has been crossed out by some prime below `bound`, starting from its square. */
  ghost predicate Crossed(k: nat, bound: nat) {
    exists p :: 2 <= p < bound && IsPrime(p) && p * p <= k && Divides(p, k)
  }

  /** Starting at the square misses no composite: when the sieve reaches `i`,
      its least prime factor has been there before. */
  lemma CrossedIffComposite(i: nat)
    requires 2 <= i
    ensures Crossed(i, i) <==> !IsPrime(i)
  {
    if !IsPrime(i) {
      var p := LeastPrimeFactor(i);
      assert p != i && p * p <= i;
    }
  }

  lemma CrossedByNext(k: nat, i: nat)
    requires 2 <= i
    ensures Crossed(k, i + 1) <==> Crossed(k, i) || (IsPrime(i) && i * i <= k && Divides(i, k))
  {
    if Crossed(k, i + 1) && !Crossed(k, i) {
      var p :| 2 <= p < i + 1 && IsPrime(p) && p * p <= k && Divides(p, k);
      assert p == i;
    }
  }

  /** The value at `k` once the multiples `i * i .. i * (j - 1)` are crossed out. */
  ghost predicate Inner(k: nat, v: nat, i: nat, j: nat) {
    v == if Crossed(k, i) || (i * i <= k < i * j && Divides(i, k)) then 0 else k
  }

  lemma OnlyMultiple(i: nat, j: nat, k: nat)
    requires 0 < i && Divides(i, k) && i * j <= k < i * j + i
    ensures k == i * j
  {
    var q := Quotient(i, k);
    if q > j {
      MulMonotone(i, j + 1, q);
      Distribute(i, j, 1);
    }
    if q < j { MulMonotone(i, q + 1, j); Distribute(i, q, 1); }
  }

  lemma InnerNext(k: nat, i: nat, j: nat)
    requires 2 <= i <= j
    ensures k != i * j ==> ((i * i <= k < i * (j + 1) && Divides(i, k)) <==> (i * i <= k < i * j && Divides(i, k)))
    ensures i * i <= i * j < i * (j + 1) && Divides(i, i * j)
  {
    hide Divides;
    Distribute(i, j, 1);
    MulMonotone(i, i, j);
    DividesByQuotient(i, i * j, j);
    if Divides(i, k) && i * j <= k < i * j + i {
      OnlyMultiple(i, j, k);
    }
  }

  /** Beyond `from`, exactly the numbers crossed by a prime below `bound` are zero. */
  ghost predicate Sieved(num: seq<nat>, from: nat, bound: nat) {
    forall k :: from <= k < |num| ==> num[k] == if Crossed(k, bound) then 0 else k
  }

  ghost predicate CrossingOut(num: seq<nat>, i: nat, j: nat) {
    forall k :: i < k < |num| ==> Inner(k, num[k], i, j)
  }

  lemma StartCrossing(num: seq<nat>, i: nat)
    requires Sieved(num, i + 1, i)
    ensures CrossingOut(num, i, i)
  {
    forall k | i < k < |num| ensures Inner(k, num[k], i, i) {}
  }

  lemma AdvanceCrossing(num: seq<nat>, i: nat, j: nat)
    requires 2 <= i <= j && i * j < |num| && CrossingOut(num, i, j)
    ensures CrossingOut(num[i * j := 0], i, j + 1)
  {
    var next := num[i * j := 0];
    forall k | i < k < |num| ensures Inner(k, next[k], i, j + 1) {
      InnerNext(k, i, j);
    }
  }

  lemma FinishCrossing(num: seq<nat>, i: nat, j: nat)
    requires 2 <= i < |num| <= i * j && IsPrime(i) && CrossingOut(num, i, j)
    ensures Sieved(num, i + 1, i + 1)
  {
    forall k | i + 1 <= k < |num| ensures num[k] == if Crossed(k, i + 1) then 0 else k {
      assert Inner(k, num[k], i, j);
      CrossedByNext(k, i);
    }
  }

  lemma NothingCrossedYet(num: seq<nat>)
    requires forall k :: 2 <= k < |num| ==> num[k] == k
    ensures Sieved(num, 2, 2)
  {}

  /** At the front, an entry is zero exactly when its index is composite. */
  lemma ZeroIffComposite(num: seq<nat>, i: nat)
    requires 2 <= i < |num| && Sieved(num, i, i)
    ensures num[i] == 0 <==> !IsPrime(i)
    ensures Sieved(num, i + 1, i)
  {
    CrossedIffComposite(i);
  }

  lemma SkipComposite(num: seq<nat>, i: nat)
    requires 2 <= i && !IsPrime(i) && Sieved(num, i + 1, i)
    ensures Sieved(num, i + 1, i + 1)
  {
    forall k | i + 1 <= k < |num| ensures num[k] == if Crossed(k, i + 1) then 0 else k {
      CrossedByNext(k, i);
    }
  }

  // ---------- crossing out with wrapped products ----------

  /** Numbers are only ever crossed out. */
  ghost predicate Kept(before: seq<nat>, num: seq<nat>) {
    |num| == |before| && forall k :: 0 <= k < |num| ==> num[k] == before[k] || num[k] == 0
  }

  /** The products evaluated for `i` so far, up to `top`, are those of ideal integers. */
  predicate InRange(i: nat, maxn: nat, top: nat) {
    top <= UINT_MAX || (i < 65536 && maxn < LOST)
  }

  /** The products wrap, but have crossed out nothing that was not crossed out. */
  ghost predicate Harmless(num: seq<nat>, i: nat, j: nat, maxn: nat) {
    Sieved(num, i + 1, i) && j <= i + 2 && (j > i ==> Wrapped(i, i) <= maxn)
  }

  lemma CompositeIsCrossed(k: nat, i: nat)
    requires 2 <= k < LOST && !IsPrime(k) && 452 <= i
    ensures Crossed(k, i)
  {
    var p := LeastPrimeFactor(k);
    if p >= 452 {
      MulMonotone(p, 452, p);
      MulMonotone(452, 452, p);
    }
  }

  lemma HarmlessStore(num: seq<nat>, i: nat, j: nat, maxn: nat)
    requires |num| == maxn + 1 && IsPrime(i) && 65536 <= i <= j < maxn < LOST
    requires Harmless(num, i, j, maxn) && Wrapped(i, j) <= maxn
    ensures Harmless(num[Wrapped(i, j) := 0], i, j + 1, maxn)
  {
    hide Wrapped;
    var w := Wrapped(i, j);
    WrappedStoresAreHarmless(i, j, maxn);
    forall k | i + 1 <= k <= maxn ensures num[w := 0][k] == if Crossed(k, i) then 0 else k {
      if k == w { CompositeIsCrossed(k, i); }
    }
  }

  /** A square beyond the array crosses out nothing. */
  lemma NothingToCross(num: seq<nat>, i: nat)
    requires 2 <= i && |num| <= i * i && Sieved(num, i + 1, i)
    ensures Sieved(num, i + 1, i + 1)
  {
    forall k | i + 1 <= k < |num| ensures num[k] == if Crossed(k, i + 1) then 0 else k {
      CrossedByNext(k, i);
    }
  }

  ghost function Max(a: nat, b: nat): (r: nat)
    ensures a <= r && b <= r && (r == a || r == b)
  {
    if a < b then b else a
  }

  /** What the machine computes is the product itself. */
  lemma Ideally(i: nat, j: nat, maxn: nat, top: nat)
    requires i <= j && InRange(i, maxn, top) && i * j <= top && (j == i || i * (j - 1) <= maxn)
    ensures Wrapped(i, j) == i * j
  {
    if top > UINT_MAX {
      SmallProductFits(i, j, maxn);
    }
    NoWrap(i, j);
  }

  /** The crossing-out for `i` has come to `j`. `top` is the largest product, in ideal
      integers, that the guard has evaluated or evaluates next. As long as none leaves 32
      bits, the loop does what it is meant to do; after that it does no harm for a while. */
  ghost predicate Round(was: seq<nat>, num: seq<nat>, i: nat, j: nat, maxn: nat, top: nat) {
    && Kept(was, num) && |num| == maxn + 1 && 2 <= i <= j <= maxn
    && (i < maxn ==> i * i <= top)
    && (j < maxn ==> i * j <= top)
    && (j > i ==> Wrapped(i, i) <= maxn && num[Wrapped(i, i)] == 0)
    && (InRange(i, maxn, top) ==> j == i || i * (j - 1) <= maxn)
    && (IsPrime(i) && maxn <= LARGEST ==> top <= UINT_MAX)
    && (IsPrime(i) && Sieved(was, i + 1, i) && InRange(i, maxn, top) ==> CrossingOut(num, i, j))
    && (IsPrime(i) && Sieved(was, i + 1, i) && 65536 <= i && maxn < LOST ==> Harmless(num, i, j, maxn))
  }

  ghost function NextTop(i: nat, j: nat, maxn: nat, top: nat): nat {
    if j < maxn then Max(top, i * j) else top
  }

  lemma StartRound(num: seq<nat>, i: nat, maxn: nat)
    requires |num| == maxn + 1 && 2 <= i <= maxn
    ensures Round(num, num, i, i, maxn, NextTop(i, i, maxn, 0))
  {
    hide Wrapped, Sieved, CrossingOut, IsPrime;
    if Sieved(num, i + 1, i) { StartCrossing(num, i); }
    if IsPrime(i) && i < maxn <= LARGEST { ProductFits(i, i, maxn); }
  }

  lemma NextRound(was: seq<nat>, num: seq<nat>, i: nat, j: nat, maxn: nat, top: nat)
    requires Round(was, num, i, j, maxn, top) && j < maxn && Wrapped(i, j) <= maxn
    ensures Round(was, num[Wrapped(i, j) := 0], i, j + 1, maxn, NextTop(i, j + 1, maxn, top))
  {
    hide Wrapped, Sieved, CrossingOut, IsPrime, Harmless;
    if InRange(i, maxn, top) {
      Ideally(i, j, maxn, top);
      if IsPrime(i) && j + 1 < maxn <= LARGEST { ProductFits(i, j + 1, maxn); }
      if CrossingOut(num, i, j) { AdvanceCrossing(num, i, j); }
    }
    if IsPrime(i) && 65536 <= i && maxn < LOST && Harmless(num, i, j, maxn) {
      HarmlessStore(num, i, j, maxn);
    }
  }

  /** When the loop ends, the array is right for the next number as long as the bound is
      below the first lost prime or no product left 32 bits. */
  lemma EndRound(was: seq<nat>, num: seq<nat>, i: nat, j: nat, maxn: nat, top: nat)
    requires Round(was, num, i, j, maxn, top) && (j == maxn || maxn < Wrapped(i, j))
    requires IsPrime(i) && Sieved(was, i + 1, i) && (maxn < LOST || top <= UINT_MAX)
    ensures Sieved(num, i + 1, i + 1)
  {
    hide Wrapped, Sieved, CrossingOut, IsPrime;
    if InRange(i, maxn, top) {
      if j < maxn { Ideally(i, j, maxn, top); }
      MulMonotone(j, 2, i);
      FinishCrossing(num, i, j);
    } else {
      MulMonotone(65536, 65536, i);
      MulMonotone(i, 65536, i);
      NothingToCross(num, i);
    }
  }

  // ---------- the sieve ----------

  /** Crosses out the products of `i` that the machine computes, from its square on.
      `top` is the largest product, in ideal integers, that the loop guard evaluates. */
  method CrossOut(num: array<nat>, i: nat, maxn: nat) returns (ghost top: nat)
    requires num.Length == maxn + 1 && 2 <= i <= maxn
    modifies num
    ensures Kept(old(num[..]), num[..])
    ensures i < maxn ==> i * i <= top
    ensures i < maxn && Wrapped(i, i) <= maxn ==> num[..][Wrapped(i, i)] == 0
    ensures IsPrime(i) && maxn <= LARGEST ==> top <= UINT_MAX
    ensures IsPrime(i) && Sieved(old(num[..]), i + 1, i) && (maxn < LOST || top <= UINT_MAX) ==> Sieved(num[..], i + 1, i + 1)
  {
    hide Wrapped, Sieved, IsPrime, InRange, CrossingOut, Harmless, NextTop;
    ghost var was := num[..];
    var j := i;
    top := NextTop(i, i, maxn, 0);
    StartRound(was, i, maxn);
    while j < maxn && Wrapped(i, j) <= maxn
      invariant Round(was, num[..], i, j, maxn, top)
      decreases maxn - j
    {
      ghost var before := num[..];
      NextRound(was, before, i, j, maxn, top);
      num[Wrapped(i, j)] := 0;
      assert num[..] == before[Wrapped(i, j) := 0];
      j := j + 1;
      top := NextTop(i, j, maxn, top);
    }
    if IsPrime(i) && Sieved(was, i + 1, i) && (maxn < LOST || top <= UINT_MAX) {
      EndRound(was, num[..], i, j, maxn, top);
    }
  }

  lemma NoPrimesYet()
    ensures PrimesUpTo(1) == []
  {
    assert PrimesUpTo(1) == PrimesUpTo(0) == [];
  }

  /** The square of a prime wraps to a larger prime, so one of the two gets lost. */
  ghost predicate OneLost(added: seq<nat>, num: seq<nat>, i: nat) {
    && |num| > LOST && (i > THIEF && THIEF in added ==> num[LOST] == 0)
    && (i > LOST ==> THIEF !in added || LOST !in added)
  }

  /** `maxn` is less than UINT_MAX, or the loops over `i <= maxn` would not end. `added`
      is what the call appends. It is the list of primes up to `maxn` exactly as long as
      the first lost prime is not among them, and the products it is made with are those
      of ideal integers exactly up to 65537. */
  method EratosthenesSieve(primes0: seq<nat>, maxn: nat)
    returns (primes: seq<nat>, size: nat, ghost added: seq<nat>, ghost top: nat)
    requires 1 <= maxn < UINT_MAX
    ensures primes == primes0 + added && size == |primes|
    ensures added == PrimesUpTo(maxn) <==> maxn < LOST
    ensures LOST <= maxn ==> THIEF !in added || LOST !in added
    ensures top <= UINT_MAX <==> maxn <= LARGEST
  {
    hide Wrapped, Sieved, IsPrime;
    var num := new nat[maxn + 1](i => i);
    num[1] := 0;
    primes, added, top := primes0, [], 0;
    var i := 2;
    NoPrimesYet();
    NothingCrossedYet(num[..]);
    while i <= maxn
      invariant 2 <= i <= maxn + 1
      invariant primes == primes0 + added
      invariant forall p :: p in added ==> p < i
      invariant maxn < LOST || top <= UINT_MAX ==> added == PrimesUpTo(i - 1) && Sieved(num[..], i, i)
      invariant maxn <= LARGEST ==> top <= UINT_MAX
      invariant LARGEST < i && LARGEST < maxn ==> UINT_MAX < top
      invariant LOST <= maxn ==> OneLost(added, num[..], i)
    {
      ghost var right := maxn < LOST || top <= UINT_MAX;
      if right {
        ZeroIffComposite(num[..], i);
        assert num[..][i] == num[i];
      }
      if i == LARGEST { LargestIsPrime(); }
      if num[i] == 0 {
        if right { SkipComposite(num[..], i); }
        i := i + 1;
        continue;
      }
      primes := primes + [i];
      ghost var before := num[..];
      ghost var t := CrossOut(num, i, maxn);
      if i == THIEF { ThiefHitsLost(); }
      added := added + [i];
      top := Max(top, t);
      i := i + 1;
    }
    if LOST <= maxn {
      ThiefHitsLost();
      PrimesUpToElements(maxn);
    }
    size := |primes|;
  }

  // ---------- agreement with the factoriser ----------

  function DivisorsAmong(ps: seq<nat>, n: nat): seq<nat>
  {
    if ps == [] then []
    else
      var last := ps[|ps| - 1];
      if 0 < last && Divides(last, n) then DivisorsAmong(ps[..|ps| - 1], n) + [last]
      else DivisorsAmong(ps[..|ps| - 1], n)
  }

  lemma AppendLarger(ds: seq<nat>, x: nat)
    requires Ascending(ds) && forall d :: d in ds ==> d < x
    ensures Ascending(ds + [x])
    ensures forall d :: d in ds + [x] <==> d in ds || d == x
  {
    var r := ds + [x];
    forall i, j | 0 <= i < j < |r| ensures r[i] < r[j] {
      assert i < |ds| && r[i] == ds[i] && ds[i] in ds;
    }
  }

  lemma {:induction false} DivisorsAmongElements(ps: seq<nat>, n: nat)
    requires Ascending(ps)
    ensures Ascending(DivisorsAmong(ps, n))
    ensures forall p :: p in DivisorsAmong(ps, n) <==> p in ps && 0 < p && Divides(p, n)
  {
    hide Ascending, Divides;
    if ps == [] {
      EmptyAscends();
    } else {
      var init, last := ps[..|ps| - 1], ps[|ps| - 1];
      WithoutLast(ps);
      DivisorsAmongElements(init, n);
      if 0 < last && Divides(last, n) {
        forall d: nat | d in DivisorsAmong(init, n) ensures d < last {
          assert d in init && d in ps;
        }
        AppendLarger(DivisorsAmong(init, n), last);
      }
      assert ps == init + [last];
    }
  }

  lemma EmptyAscends()
    ensures Ascending([])
  {}

  /** Filtering the sieve's list by divisibility gives the factoriser's list,
      however far beyond `n` the sieve went. */
  lemma SieveAgreesWithFactoriser(fs: seq<nat>, n: nat, maxn: nat)
    requires 1 <= n <= maxn && ListsPrimeDivisors(fs, n)
    ensures fs == DivisorsAmong(PrimesUpTo(maxn), n)
  {
    var ps := PrimesUpTo(maxn);
    PrimesUpToElements(maxn);
    DivisorsAmongElements(ps, n);
    forall p ensures p in fs <==> p in DivisorsAmong(ps, n) {
      if p in fs { DivisorBound(p, n); }
    }
    AscendingUnique(fs, DivisorsAmong(ps, n));
  }
}
