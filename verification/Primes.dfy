/** Number theory shared by the factoriser and the sieve. */
module Primes {
  import opened Bytes

  predicate Divides(d: nat, n: nat)
    requires 0 < d
  {
    n % d == 0
  }

  predicate IsPrime(p: nat) {
    2 <= p && forall d :: 2 <= d < p ==> !Divides(d, p)
  }

  lemma DividesByQuotient(d: nat, n: nat, q: nat)
    requires 0 < d && n == d * q
    ensures Divides(d, n) && n / d == q
  {
    ModUnique(n, d, q, 0);
  }

  lemma Quotient(d: nat, n: nat) returns (q: nat)
    requires 0 < d && Divides(d, n)
    ensures n == d * q && q == n / d
  {
    q := n / d;
  }

  lemma DividesTransitive(a: nat, b: nat, c: nat)
    requires 0 < a && 0 < b && Divides(a, b) && Divides(b, c)
    ensures Divides(a, c)
  {
    var x := Quotient(a, b);
    var y := Quotient(b, c);
    assert c == a * (x * y);
    DividesByQuotient(a, c, x * y);
  }

  lemma DividesMultiple(d: nat, n: nat, k: nat)
    requires 0 < d && Divides(d, n)
    ensures Divides(d, k * n)
  {
    var q := Quotient(d, n);
    assert k * n == d * (k * q);
    DividesByQuotient(d, k * n, k * q);
  }

  lemma DividesDifference(d: nat, a: nat, b: nat)
    requires 0 < d && Divides(d, a) && Divides(d, b) && b <= a
    ensures Divides(d, a - b)
  {
    var x := Quotient(d, a);
    var y := Quotient(d, b);
    if x < y { MulMonotone(d, x + 1, y); }
    assert a - b == d * (x - y);
    DividesByQuotient(d, a - b, x - y);
  }

  lemma DivisorBound(d: nat, n: nat)
    requires 0 < d && 0 < n && Divides(d, n)
    ensures d <= n
  {
    var q := Quotient(d, n);
    MulMonotone(d, 1, q);
  }

  lemma DropMultiple(p: nat, m: nat, n: nat, b: nat)
    requires 0 < p && 0 < n && Divides(p, m * b) && Divides(p, n * b)
    ensures Divides(p, (m % n) * b)
  {
    var q, r := m / n, m % n;
    assert m * b == q * (n * b) + r * b by {
      assert m == n * q + r;
      assert m * b == (n * q) * b + r * b;
      assert (n * q) * b == q * (n * b);
    }
    assert 0 <= r * b;
    DividesMultiple(p, n * b, q);
    DividesDifference(p, m * b, q * (n * b));
  }

  /** Euclid's lemma: a prime that divides a product divides a factor. By descent
      on `a`: while `1 < a < p`, the prime also divides `(p % a) * b`. */
  lemma {:induction false} EuclidsLemma(p: nat, a: nat, b: nat)
    requires IsPrime(p) && Divides(p, a * b)
    ensures Divides(p, a) || Divides(p, b)
    decreases a
  {
    if a > 1 && !Divides(p, a) {
      DividesByQuotient(p, p * b, b);
      if a >= p {
        DropMultiple(p, a, p, b);
        EuclidsLemma(p, a % p, b);
        if Divides(p, a % p) { DivisorBound(p, a % p); }
      } else {
        assert p % a != 0 by { assert !Divides(a, p); }
        DropMultiple(p, p, a, b);
        EuclidsLemma(p, p % a, b);
        if Divides(p, p % a) { DivisorBound(p, p % a); }
      }
    }
  }

  /** Two primes divide one another only if they are equal. */
  lemma PrimeDividesPrime(p: nat, q: nat)
    requires IsPrime(p) && IsPrime(q) && Divides(p, q)
    ensures p == q
  {
    DivisorBound(p, q);
  }

  lemma {:induction false} LeastPrimeFactor(n: nat) returns (p: nat)
    requires 2 <= n
    ensures IsPrime(p) && Divides(p, n) && p <= n
    ensures forall d :: 2 <= d < p ==> !Divides(d, n)
    ensures !IsPrime(n) ==> p * p <= n
  {
    p := 2;
    DividesByQuotient(n, n, 1);
    while !Divides(p, n)
      invariant 2 <= p <= n
      invariant forall d :: 2 <= d < p ==> !Divides(d, n)
      decreases n - p
    {
      p := p + 1;
    }
    forall d | 2 <= d < p ensures !Divides(d, p) {
      if Divides(d, p) { DividesTransitive(d, p, n); }
    }
    if !IsPrime(n) {
      var q := Quotient(p, n);
      assert n == q * p;
      DividesByQuotient(q, n, p);
      assert q == 1 || q >= p;
      assert q != 1;
      MulMonotone(p, p, q);
    }
  }

  // ---------- ascending lists ----------

  ghost predicate Ascending(s: seq<nat>) {
    forall i, j :: 0 <= i < j < |s| ==> s[i] < s[j]
  }

  lemma WithoutLast(s: seq<nat>)
    requires Ascending(s) && s != []
    ensures Ascending(s[..|s| - 1])
    ensures forall x :: x in s[..|s| - 1] <==> x in s && x < s[|s| - 1]
  {
    var init, last := s[..|s| - 1], s[|s| - 1];
    forall x ensures x in init <==> x in s && x < last {
      if x in init {
        var i :| 0 <= i < |init| && init[i] == x;
        assert s[i] == x;
      }
      if x in s && x < last {
        var i :| 0 <= i < |s| && s[i] == x;
        assert init[i] == x;
      }
    }
  }

  /** An ascending list is determined by its elements. */
  lemma {:induction false} AscendingUnique(s: seq<nat>, t: seq<nat>)
    requires Ascending(s) && Ascending(t)
    requires forall x :: x in s <==> x in t
    ensures s == t
  {
    assert t != [] ==> t[|t| - 1] in s;
    assert s != [] ==> s[|s| - 1] in t;
    if s != [] && t != [] {
      WithoutLast(s);
      WithoutLast(t);
      var a, b := s[|s| - 1], t[|t| - 1];
      assert a in s && b in t && a in t && b in s;
      assert a == b;
      var s', t' := s[..|s| - 1], t[..|t| - 1];
      forall x ensures x in s' <==> x in t' {
        assert x in s' <==> x in s && x < a;
        assert x in t' <==> x in t && x < b;
      }
      AscendingUnique(s', t');
      assert s == s' + [a] && t == t' + [b];
    }
  }

  /** The primes up to `n`, ascending. */
  function PrimesUpTo(n: nat): seq<nat> {
    if n == 0 then [] else PrimesUpTo(n - 1) + if IsPrime(n) then [n] else []
  }

  lemma {:induction false} PrimesUpToElements(n: nat)
    ensures Ascending(PrimesUpTo(n))
    ensures forall p: nat :: p in PrimesUpTo(n) <==> IsPrime(p) && p <= n
  {
    if n != 0 {
      PrimesUpToElements(n - 1);
      var s := PrimesUpTo(n - 1);
      assert forall i :: 0 <= i < |s| ==> s[i] in s;
    }
  }
}
