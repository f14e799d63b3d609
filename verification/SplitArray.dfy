/** Splitting an array into two halves of nearly equal sums: `my_compare`,
    `split_array`, `calc_diff_l` and `calc_diff_f`. */
module SplitArray {
  import opened Bytes

  // ---------- the comparator ----------

  /** The difference, converted to the `int` that the comparator returns. */
  function MyCompare(a: int, b: int): int {
    ToInt32(a - b)
  }

  predicate SameSign(x: int, y: int) {
    (x < 0 <==> y < 0) && (x == 0 <==> y == 0)
  }

  ghost predicate DifferencesFit(s: seq<int>) {
    forall x, y :: x in s && y in s ==> x - y <= 0x7FFF_FFFF
  }

  /** The comparator orders all pairs at distance up to `bound` correctly exactly
      when `bound` fits an `int`. */
  lemma CompareAgreesIff(bound: nat)
    ensures (forall a, b :: a - b <= bound && b - a <= bound ==> SameSign(MyCompare(a, b), a - b))
            <==> bound <= 0x7FFF_FFFF
  {
    if bound <= 0x7FFF_FFFF {
      forall a, b | a - b <= bound && b - a <= bound ensures SameSign(MyCompare(a, b), a - b) {
        SmallIntFits(a - b);
      }
    } else {
      assert MyCompare(0x8000_0000, 0) == -0x8000_0000;
      assert !SameSign(MyCompare(0x8000_0000, 0), 0x8000_0000 - 0);
    }
  }

  // ---------- sorting with the comparator ----------

  ghost predicate Sorted(s: seq<int>) {
    forall i, j :: 0 <= i < j < |s| ==> s[i] <= s[j]
  }

  function Insert(x: int, s: seq<int>): (r: seq<int>)
    ensures multiset(r) == multiset(s) + multiset{x}
  {
    if s == [] || MyCompare(x, s[0]) <= 0 then [x] + s
    else
      assert s == [s[0]] + s[1..];
      [s[0]] + Insert(x, s[1..])
  }

  function SortedBy(s: seq<int>): (r: seq<int>)
    ensures multiset(r) == multiset(s) && |r| == |s|
  {
    if s == [] then []
    else
      assert s == [s[0]] + s[1..];
      var r := Insert(s[0], SortedBy(s[1..]));
      assert |multiset(r)| == |r| && |multiset(s)| == |s|;
      r
  }

  lemma InsertElements(x: int, s: seq<int>)
    ensures forall y :: y in Insert(x, s) ==> y == x || y in s
  {
    forall y | y in Insert(x, s) ensures y == x || y in s {
      assert y in multiset(Insert(x, s));
    }
  }

  lemma HeadBelow(x: int, s: seq<int>)
    requires Sorted(s) && forall y :: y in s ==> x <= y
    ensures Sorted([x] + s)
  {
    var r := [x] + s;
    forall i, j | 0 <= i < j < |r| ensures r[i] <= r[j] {
      assert r[j] == s[j - 1] && s[j - 1] in s;
      assert i > 0 ==> r[i] == s[i - 1];
    }
  }

  lemma {:induction false} InsertKeepsSorted(x: int, s: seq<int>)
    requires Sorted(s) && DifferencesFit([x] + s)
    ensures Sorted(Insert(x, s))
  {
    if s != [] {
      assert x in [x] + s && s[0] in [x] + s;
      SmallIntFits(x - s[0]);
      if s[0] < x {
        assert forall y :: y in [x] + s[1..] ==> y in [x] + s;
        InsertKeepsSorted(x, s[1..]);
        InsertElements(x, s[1..]);
        HeadBelow(s[0], Insert(x, s[1..]));
      } else {
        HeadBelow(x, s);
      }
    }
  }

  lemma {:induction false} SortedBySorts(s: seq<int>)
    requires DifferencesFit(s)
    ensures Sorted(SortedBy(s))
  {
    if s != [] {
      assert forall x :: x in s[1..] ==> x in s;
      SortedBySorts(s[1..]);
      var r := SortedBy(s[1..]);
      forall y | y in [s[0]] + r ensures y in s {
        assert y == s[0] || y in multiset(r);
      }
      InsertKeepsSorted(s[0], r);
    }
  }

  /** What `qsort` promises: a permutation, sorted whenever the comparator is sound. */
  method QSort(a: array<int>)
    modifies a
    ensures multiset(a[..]) == multiset(old(a[..]))
    ensures DifferencesFit(old(a[..])) ==> Sorted(a[..])
  {
    var r := SortedBy(a[..]);
    if DifferencesFit(a[..]) { SortedBySorts(a[..]); }
    forall i | 0 <= i < a.Length {
      a[i] := r[i];
    }
    assert a[..] == r;
  }

  // ---------- the two halves of a sorted list ----------

  /** Outermost pair to the first half, next pair to the second, and so inwards. */
  function FirstHalf(s: seq<int>): (r: seq<int>)
    ensures |r| == (|s| + 1) / 2
  {
    var n := |s|;
    if n == 0 then []
    else if n <= 2 then [s[0]]
    else if n == 3 then [s[0], s[2]]
    else [s[0], s[n - 1]] + FirstHalf(s[2..n - 2])
  }

  function SecondHalf(s: seq<int>): (r: seq<int>)
    ensures |r| == (|s| + 1) / 2
  {
    var n := |s|;
    if n == 0 then []
    else if n <= 2 then [s[n - 1]]
    else if n == 3 then [s[1], s[1]]
    else [s[1], s[n - 2]] + SecondHalf(s[2..n - 2])
  }

  function One(a: int, x: int): nat {
    if a == x then 1 else 0
  }

  function Count(s: seq<int>, x: int): nat {
    if s == [] then 0 else Count(s[..|s| - 1], x) + One(s[|s| - 1], x)
  }

  lemma {:induction false} CountConcat(s: seq<int>, t: seq<int>, x: int)
    ensures Count(s + t, x) == Count(s, x) + Count(t, x)
  {
    if t == [] {
      assert s + t == s;
    } else {
      CountConcat(s, t[..|t| - 1], x);
      assert (s + t)[..|s + t| - 1] == s + t[..|t| - 1];
    }
  }

  lemma {:induction false} CountIsMultiplicity(s: seq<int>, x: int)
    ensures Count(s, x) == multiset(s)[x]
  {
    if s != [] {
      CountIsMultiplicity(s[..|s| - 1], x);
      assert s == s[..|s| - 1] + [s[|s| - 1]];
    }
  }

  /** The median that an odd-sized input hands to both halves. */
  function ExtraCopy(s: seq<int>): multiset<int> {
    if |s| % 2 == 1 then multiset{s[|s| / 2]} else multiset{}
  }

  lemma CountOfFew(s: seq<int>, x: int)
    requires 1 <= |s| <= 3
    ensures |s| == 1 ==> Count(s, x) == One(s[0], x)
    ensures |s| == 2 ==> Count(s, x) == One(s[0], x) + One(s[1], x)
    ensures |s| == 3 ==> Count(s, x) == One(s[0], x) + One(s[1], x) + One(s[2], x)
  {
    if |s| == 1 {
      assert s[..0] == [];
    } else {
      CountOfFew(s[..|s| - 1], x);
    }
  }

  lemma HalvesOfFew(s: seq<int>)
    requires 1 <= |s| <= 3
    ensures FirstHalf(s)[0] == s[0] && (|s| == 3 ==> FirstHalf(s)[1] == s[2])
    ensures SecondHalf(s)[0] == (if |s| == 3 then s[1] else s[|s| - 1]) && (|s| == 3 ==> SecondHalf(s)[1] == s[1])
  {}

  lemma ConservationOfFew(s: seq<int>, x: int)
    requires |s| <= 3
    ensures Count(FirstHalf(s), x) + Count(SecondHalf(s), x) == Count(s, x) + ExtraCopy(s)[x]
  {
    if s != [] {
      HalvesOfFew(s);
      hide FirstHalf, SecondHalf, Count;
      CountOfFew(s, x);
      CountOfFew(FirstHalf(s), x);
      CountOfFew(SecondHalf(s), x);
    }
  }

  lemma CountFront(a: int, b: int, s: seq<int>, x: int)
    ensures Count([a, b] + s, x) == One(a, x) + One(b, x) + Count(s, x)
  {
    CountConcat([a, b], s, x);
    CountOfFew([a, b], x);
  }

  lemma CountMiddle(s: seq<int>, x: int)
    requires |s| >= 4
    ensures Count(s, x) == Count(s[2..|s| - 2], x)
              + (One(s[0], x) + One(s[1], x) + One(s[|s| - 2], x) + One(s[|s| - 1], x))
  {
    hide Count, One;
    var n := |s|;
    assert s == s[..n - 2] + s[n - 2..] && s[..n - 2] == s[..2] + s[2..n - 2];
    CountConcat(s[..n - 2], s[n - 2..], x);
    CountConcat(s[..2], s[2..n - 2], x);
    CountOfFew(s[..2], x);
    CountOfFew(s[n - 2..], x);
  }

  lemma MedianIsInside(s: seq<int>)
    requires |s| >= 4
    ensures ExtraCopy(s[2..|s| - 2]) == ExtraCopy(s)
  {
    var mid := s[2..|s| - 2];
    assert |s| / 2 == |mid| / 2 + 2;
    assert |s| % 2 == 1 ==> mid[|mid| / 2] == s[|mid| / 2 + 2];
  }

  lemma {:induction false} ConservationAt(s: seq<int>, x: int)
    ensures Count(FirstHalf(s), x) + Count(SecondHalf(s), x) == Count(s, x) + ExtraCopy(s)[x]
  {
    var n := |s|;
    if n <= 3 {
      ConservationOfFew(s, x);
    } else {
      var mid := s[2..n - 2];
      var f, g := FirstHalf(mid), SecondHalf(mid);
      assert FirstHalf(s) == [s[0], s[n - 1]] + f && SecondHalf(s) == [s[1], s[n - 2]] + g;
      hide FirstHalf, SecondHalf, ExtraCopy, Count, One;
      CountMiddle(s, x);
      CountFront(s[0], s[n - 1], f, x);
      CountFront(s[1], s[n - 2], g, x);
      ConservationAt(mid, x);
      MedianIsInside(s);
    }
  }

  /** The halves hold the input, plus one more copy of the median of an odd-sized input. */
  lemma Conservation(s: seq<int>)
    ensures multiset(FirstHalf(s)) + multiset(SecondHalf(s)) == multiset(s) + ExtraCopy(s)
  {
    hide FirstHalf, SecondHalf, ExtraCopy, Count;
    forall x: int
      ensures (multiset(FirstHalf(s)) + multiset(SecondHalf(s)))[x] == (multiset(s) + ExtraCopy(s))[x]
    {
      ConservationAt(s, x);
      CountIsMultiplicity(s, x);
      CountIsMultiplicity(FirstHalf(s), x);
      CountIsMultiplicity(SecondHalf(s), x);
    }
  }

  function Sum(s: seq<int>): int {
    if s == [] then 0 else Sum(s[..|s| - 1]) + s[|s| - 1]
  }

  lemma {:induction false} SumConcat(s: seq<int>, t: seq<int>)
    ensures Sum(s + t) == Sum(s) + Sum(t)
  {
    if t == [] {
      assert s + t == s;
    } else {
      SumConcat(s, t[..|t| - 1]);
      assert (s + t)[..|s + t| - 1] == s + t[..|t| - 1];
    }
  }

  lemma SumOfTwo(x: int, y: int)
    ensures Sum([x]) == x && Sum([x, y]) == x + y
  {
    assert [x, y][..1] == [x] && [x][..0] == [];
  }

  /** The running difference after `k` pairs. */
  function DiffAfter(first: seq<int>, second: seq<int>, k: nat): int
    requires k <= |first| && k <= |second|
  {
    Sum(first[..k]) - Sum(second[..k])
  }

  lemma DiffOfPairAndRest(a: int, b: int, c: int, d: int, f: seq<int>, g: seq<int>, k: nat)
    requires k <= |f| == |g|
    ensures DiffAfter([a, d] + f, [b, c] + g, k + 2) == a + d - b - c + DiffAfter(f, g, k)
    ensures DiffAfter([a, d] + f, [b, c] + g, 1) == a - b
    ensures DiffAfter([a, d] + f, [b, c] + g, 0) == 0
  {
    assert ([a, d] + f)[..k + 2] == [a, d] + f[..k] && ([b, c] + g)[..k + 2] == [b, c] + g[..k];
    assert ([a, d] + f)[..1] == [a] && ([b, c] + g)[..1] == [b];
    SumConcat([a, d], f[..k]);
    SumConcat([b, c], g[..k]);
    SumOfTwo(a, d);
    SumOfTwo(b, c);
  }

  /** No running difference of the halves leaves plus or minus the spread of the array. */
  lemma {:induction false} DifferenceBound(s: seq<int>, k: nat)
    requires Sorted(s) && s != [] && k <= (|s| + 1) / 2
    ensures var spread := s[|s| - 1] - s[0];
            -spread <= DiffAfter(FirstHalf(s), SecondHalf(s), k) <= spread
  {
    var n := |s|;
    if n <= 2 {
      SumOfTwo(s[0], 0);
      SumOfTwo(s[n - 1], 0);
      assert k == 1 ==> FirstHalf(s)[..k] == FirstHalf(s) && SecondHalf(s)[..k] == SecondHalf(s);
    } else if n == 3 {
      assert FirstHalf(s) == [s[0], s[2]] + [] && SecondHalf(s) == [s[1], s[1]] + [];
      DiffOfPairAndRest(s[0], s[1], s[1], s[2], [], [], 0);
      assert DiffAfter([], [], 0) == 0;
    } else {
      var mid := s[2..n - 2];
      var f, g := FirstHalf(mid), SecondHalf(mid);
      var rest := if k >= 2 then k - 2 else 0;
      DiffOfPairAndRest(s[0], s[1], s[n - 2], s[n - 1], f, g, rest);
      if mid == [] {
        assert DiffAfter(f, g, rest) == 0;
      } else {
        DifferenceBound(mid, rest);
        assert mid[0] == s[2] && mid[|mid| - 1] == s[n - 3];
      }
    }
  }

  // ---------- the methods ----------

  /** The halves by index, as the loop fills them. */
  function FirstAt(s: seq<int>, j: nat): int
    requires j < (|s| + 1) / 2
  {
    if j % 2 == 0 then s[j] else s[|s| - j]
  }

  function SecondAt(s: seq<int>, j: nat): int
    requires j < (|s| + 1) / 2
  {
    if 2 * j + 1 == |s| then s[j] else if j % 2 == 0 then s[j + 1] else s[|s| - 1 - j]
  }

  lemma InnerIndex(s: seq<int>, j: nat)
    requires |s| >= 4 && 2 <= j < (|s| + 1) / 2
    ensures FirstAt(s, j) == FirstAt(s[2..|s| - 2], j - 2) && SecondAt(s, j) == SecondAt(s[2..|s| - 2], j - 2)
  {}

  lemma {:induction false} HalvesByIndex(s: seq<int>, j: nat)
    requires j < (|s| + 1) / 2
    ensures FirstHalf(s)[j] == FirstAt(s, j) && SecondHalf(s)[j] == SecondAt(s, j)
  {
    if |s| >= 4 {
      var n, mid := |s|, s[2..|s| - 2];
      assert FirstHalf(s) == [s[0], s[n - 1]] + FirstHalf(mid);
      assert SecondHalf(s) == [s[1], s[n - 2]] + SecondHalf(mid);
      if j >= 2 {
        HalvesByIndex(mid, j - 2);
        InnerIndex(s, j);
      }
    }
  }

  method SplitArray(a: array<int>, first: array<int>, second: array<int>) returns (half: nat)
    requires first.Length >= a.Length / 2 + 2 && second.Length >= a.Length / 2 + 2
    requires a != first && a != second && first != second
    modifies a, first, second
    ensures half == (a.Length + 1) / 2
    ensures multiset(a[..]) == multiset(old(a[..]))
    ensures DifferencesFit(old(a[..])) ==> Sorted(a[..])
    ensures first[..half] == FirstHalf(a[..]) && second[..half] == SecondHalf(a[..])
    ensures forall j :: 0 <= j < half ==> first[j] == if j % 2 == 0 then a[j] else a[a.Length - j]
    ensures forall j :: 0 <= j < half ==>
      second[j] == if 2 * j + 1 == a.Length then a[j] else if j % 2 == 0 then a[j + 1] else a[a.Length - 1 - j]
  {
    QSort(a);
    half := Deal(a, first, second);
    forall j | 0 <= j < half ensures first[j] == FirstHalf(a[..])[j] && second[j] == SecondHalf(a[..])[j] {
      HalvesByIndex(a[..], j);
    }
  }

  lemma ByRound(s: seq<int>, n: nat)
    requires 4 * n < |s|
    ensures FirstAt(s, 2 * n) == s[2 * n]
    ensures 4 * n + 2 < |s| ==> FirstAt(s, 2 * n + 1) == s[|s| - 2 * n - 1]
    ensures 4 * n + 2 < |s| ==> SecondAt(s, 2 * n) == s[2 * n + 1] && SecondAt(s, 2 * n + 1) == s[|s| - 2 * n - 2]
    ensures 4 * n + 2 >= |s| ==> SecondAt(s, 2 * n) == s[|s| - 2 * n - 1]
  {}

  /** One half may have got an element too many, which belongs to the other one. */
  predicate Dealt(s: seq<int>, first: seq<int>, second: seq<int>, len1: nat, len2: nat) {
    var h := (|s| + 1) / 2;
    && ((len1 == h && len2 == h) || (len1 == h + 1 && len2 + 1 == h))
    && len1 <= |first| && len2 <= |second|
    && (len1 > h ==> first[h] == SecondAt(s, h - 1))
    && (forall j :: 0 <= j < h ==> first[j] == FirstAt(s, j))
    && (forall j :: 0 <= j < len2 ==> second[j] == SecondAt(s, j))
  }

  /** The dealing loop of `split_array`. */
  method DealPairs(a: array<int>, first: array<int>, second: array<int>) returns (len1: nat, len2: nat)
    requires first.Length >= a.Length / 2 + 2 && second.Length >= a.Length / 2 + 2
    requires a != first && a != second && first != second
    modifies first, second
    ensures Dealt(a[..], first[..], second[..], len1, len2)
  {
    hide FirstAt, SecondAt;
    var size, nrSplit, n := a.Length, 0, 0;
    len1, len2 := 0, 0;
    ghost var s, h := a[..], (a.Length + 1) / 2;
    while nrSplit < size
      invariant a[..] == s && |s| == size
      invariant nrSplit < size ==> nrSplit == 4 * n && len1 == len2 == 2 * n
      invariant nrSplit >= size ==> (len1 == len2 == h) || (len1 == h + 1 && len2 == h - 1)
      invariant nrSplit >= size && len1 > h ==> first[h] == SecondAt(s, h - 1)
      invariant forall j :: 0 <= j < len1 && j < h ==> first[j] == FirstAt(s, j)
      invariant forall j :: 0 <= j < len2 ==> second[j] == SecondAt(s, j)
    {
      ByRound(s, n);
      first[len1] := a[n * 2];
      len1 := len1 + 1;
      first[len1] := a[size - n * 2 - 1];
      len1, nrSplit := len1 + 1, nrSplit + 2;
      if nrSplit < size {
        second[len2] := a[n * 2 + 1];
        len2 := len2 + 1;
        second[len2] := a[size - n * 2 - 2];
        len2, nrSplit := len2 + 1, nrSplit + 2;
      }
      n := n + 1;
    }
  }

  /** The dealing loop and the balancing after it. */
  method Deal(a: array<int>, first: array<int>, second: array<int>) returns (half: nat)
    requires first.Length >= a.Length / 2 + 2 && second.Length >= a.Length / 2 + 2
    requires a != first && a != second && first != second
    modifies first, second
    ensures half == (a.Length + 1) / 2
    ensures forall j :: 0 <= j < half ==> first[j] == FirstAt(a[..], j) && second[j] == SecondAt(a[..], j)
  {
    hide FirstAt, SecondAt;
    var len1, len2 := DealPairs(a, first, second);
    if len1 > len2 {
      assert len1 == len2 + 2;
      len1 := len1 - 1;
      second[len2] := first[len1];
      len2 := len2 + 1;
    } else if len1 < len2 {
      // the source balances this case too; it never arises
      assert false;
    }
    assert len1 == len2;
    half := len1;
  }

  const LONG_MIN := -0x8000_0000_0000_0000
  const LONG_MAX := 0x7FFF_FFFF_FFFF_FFFF

  predicate FitsLong(x: int) {
    LONG_MIN <= x <= LONG_MAX
  }

  /** The accumulation stays within `long` when every term and every partial sum does. */
  method CalcDiffL(first: array<int>, second: array<int>, half: nat) returns (diff: int)
    requires half <= first.Length && half <= second.Length
    requires forall k :: 0 <= k <= half ==> FitsLong(DiffAfter(first[..], second[..], k))
    requires forall k :: 0 <= k < half ==> FitsLong(first[k] - second[k])
    ensures diff == Sum(first[..half]) - Sum(second[..half])
  {
    diff := 0;
    for i := 0 to half
      invariant diff == DiffAfter(first[..], second[..], i)
    {
      assert first[..][..i + 1] == first[..i + 1] && second[..][..i + 1] == second[..i + 1];
      assert first[..i + 1][..i] == first[..][..i] && second[..i + 1][..i] == second[..][..i];
      assert FitsLong(first[i] - second[i]);
      diff := diff + (first[i] - second[i]);
      assert FitsLong(diff) by { assert diff == DiffAfter(first[..], second[..], i + 1); }
    }
    assert first[..][..half] == first[..half] && second[..][..half] == second[..half];
  }

  /** The floating-point variant, with exact reals. */
  method CalcDiffF(first: array<int>, second: array<int>, half: nat) returns (diff: real)
    requires half <= first.Length && half <= second.Length
    ensures diff == (Sum(first[..half]) - Sum(second[..half])) as real
  {
    var d1, d2 := 0.0, 0.0;
    for i := 0 to half
      invariant d1 == Sum(first[..i]) as real && d2 == Sum(second[..i]) as real
    {
      assert first[..i + 1][..i] == first[..i] && second[..i + 1][..i] == second[..i];
      d1, d2 := d1 + first[i] as real, d2 + second[i] as real;
    }
    diff := d1 - d2;
  }

  lemma SpreadFits(input: seq<int>, s: seq<int>)
    requires DifferencesFit(input) && multiset(s) == multiset(input) && s != []
    ensures s[|s| - 1] - s[0] <= 0x7FFF_FFFF
  {
    var lo, hi := s[0], s[|s| - 1];
    assert lo in multiset(s) && hi in multiset(s);
    assert lo in multiset(input) && hi in multiset(input);
    assert lo in input && hi in input;
  }

  lemma DiffsFit(s: seq<int>, f: seq<int>, g: seq<int>, half: nat)
    requires Sorted(s) && s != [] && s[|s| - 1] - s[0] <= 0x7FFF_FFFF && half == (|s| + 1) / 2
    requires half <= |f| && half <= |g| && f[..half] == FirstHalf(s) && g[..half] == SecondHalf(s)
    ensures forall k :: 0 <= k <= half ==> FitsLong(DiffAfter(f, g, k))
    ensures forall k :: 0 <= k < half ==> FitsLong(f[k] - g[k])
  {
    forall k | 0 <= k <= half
      ensures -0x7FFF_FFFF <= DiffAfter(f, g, k) <= 0x7FFF_FFFF
    {
      DifferenceBound(s, k);
      assert f[..k] == f[..half][..k] && g[..k] == g[..half][..k];
    }
    forall k | 0 <= k < half ensures FitsLong(f[k] - g[k]) {
      assert f[..k + 1][..k] == f[..k] && g[..k + 1][..k] == g[..k];
      assert DiffAfter(f, g, k + 1) == DiffAfter(f, g, k) + (f[k] - g[k]);
    }
  }

  /** Sort, split and subtract. No operation overflows, and the difference of the
      two halves is bounded by the spread of the array. */
  method SplitAndDiff(a: array<int>, first: array<int>, second: array<int>) returns (diff: int)
    requires 1 <= a.Length && DifferencesFit(a[..])
    requires first.Length >= a.Length / 2 + 2 && second.Length >= a.Length / 2 + 2
    requires a != first && a != second && first != second
    modifies a, first, second
    ensures Sorted(a[..]) && multiset(a[..]) == multiset(old(a[..]))
    ensures diff == Sum(FirstHalf(a[..])) - Sum(SecondHalf(a[..]))
    ensures a[0] - a[a.Length - 1] <= diff <= a[a.Length - 1] - a[0]
  {
    var half := SplitArray(a, first, second);
    SpreadFits(old(a[..]), a[..]);
    DiffsFit(a[..], first[..], second[..], half);
    diff := CalcDiffL(first, second, half);
    DifferenceBound(a[..], half);
    ghost var f, g := FirstHalf(a[..]), SecondHalf(a[..]);
    assert f[..half] == f && g[..half] == g;
    assert diff == Sum(f) - Sum(g) == DiffAfter(f, g, half);
    assert a[..][0] == a[0] && a[..][|a[..]| - 1] == a[a.Length - 1];
  }
}
