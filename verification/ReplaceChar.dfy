/** The in-place, left-to-right replacement of `replace_char`. */
module ReplaceChar {
  const NUL := '\0'

  function CountOf(t: string, needle: char): nat {
    if t == [] then 0 else CountOf(t[..|t| - 1], needle) + if t[|t| - 1] == needle then 1 else 0
  }

  lemma {:induction false} CountIsMultiplicity(t: string, needle: char)
    ensures CountOf(t, needle) == multiset(t)[needle]
  {
    if t != [] {
      CountIsMultiplicity(t[..|t| - 1], needle);
      assert t == t[..|t| - 1] + [t[|t| - 1]];
    }
  }

  /** The character after position `i`; the NUL after the last one. */
  function Next(t: string, i: nat): char
    requires i < |t|
  {
    if i + 1 < |t| then t[i + 1] else NUL
  }

  predicate Allowed(c: char, prev: char, next: char) {
    'a' <= c <= 'z' && c != prev && c != next
  }

  /** The least lower-case letter that is neither of the two. */
  function Pick(prev: char, next: char): (c: char)
    ensures Allowed(c, prev, next)
    ensures forall d :: Allowed(d, prev, next) ==> c <= d
  {
    if 'a' != prev && 'a' != next then 'a'
    else if 'b' != prev && 'b' != next then 'b'
    else 'c'
  }

  /** The first `k` characters after the loop has passed them. */
  function Done(t: string, needle: char, k: nat): (r: string)
    requires k <= |t|
    ensures |r| == k
  {
    if k == 0 then []
    else
      var p := Done(t, needle, k - 1);
      p + [if t[k - 1] == needle then Pick(if k == 1 then NUL else p[k - 2], Next(t, k - 1)) else t[k - 1]]
  }

  function Replaced(t: string, needle: char): (r: string)
    ensures |r| == |t|
  {
    Done(t, needle, |t|)
  }

  // ---------- what a result is for ----------

  /** Only needles change, each into a letter that differs from both its neighbours. */
  ghost predicate Solution(t: string, needle: char, r: string) {
    && |r| == |t|
    && (forall i :: 0 <= i < |t| && t[i] != needle ==> r[i] == t[i])
    && (forall i :: 0 <= i < |t| && t[i] == needle ==>
          && 'a' <= r[i] <= 'z'
          && (i > 0 ==> r[i] != r[i - 1])
          && (i + 1 < |t| ==> r[i] != r[i + 1]))
  }

  ghost predicate LexLess(r: string, u: string) {
    exists i :: 0 <= i < |r| && i < |u| && r[..i] == u[..i] && r[i] < u[i]
  }

  ghost predicate NulFree(t: string) {
    NUL !in t
  }

  ghost predicate IsLeastSolution(t: string, needle: char, r: string) {
    && Solution(t, needle, r)
    && forall u :: Solution(t, needle, u) ==> u == r || LexLess(r, u)
  }

  // ---------- the method ----------

  /** `t` is the text of the C string in `s`: what precedes its first NUL. */
  ghost predicate IsTextOf(t: string, s: seq<char>) {
    NulFree(t) && t + [NUL] <= s
  }

  lemma {:induction false} TextExists(s: seq<char>) returns (t: string)
    requires NUL in s
    ensures IsTextOf(t, s)
  {
    if s[0] == NUL {
      t := [];
    } else {
      assert s == [s[0]] + s[1..];
      t := TextExists(s[1..]);
      t := [s[0]] + t;
    }
  }

  method ReplaceChar(s: array<char>, needle: char, ghost t: string) returns (n: nat)
    requires IsTextOf(t, s[..])
    modifies s
    ensures s[..] == Replaced(t, needle) + old(s[..])[|t|..]
    ensures n == CountOf(t, needle)
  {
    var i := 0;
    n := 0;
    ghost var orig := s[..];
    assert forall k :: 0 <= k < |t| ==> orig[k] == (t + [NUL])[k] == t[k];
    assert orig[|t|] == (t + [NUL])[|t|];
    while s[i] != NUL
      invariant 0 <= i <= |t|
      invariant s[..i] == Done(t, needle, i) && (forall k :: i <= k < s.Length ==> s[k] == orig[k])
      invariant n == CountOf(t[..i], needle)
      decreases |t| - i
    {
      if i == |t| { assert false; }
      assert t[..i + 1][..i] == t[..i];
      ghost var prev := if i == 0 then NUL else s[..i][i - 1];
      if s[i] == needle {
        var ch := 'a';
        while ch <= 'z'
          invariant 'a' <= ch && forall d :: Allowed(d, prev, Next(t, i)) ==> ch <= d
          invariant s[..i] == Done(t, needle, i) && (forall k :: i <= k < s.Length ==> s[k] == orig[k])
          invariant n == CountOf(t[..i], needle)
          decreases 'z' as int - ch as int
        {
          if (i > 0 && s[i - 1] == ch) || (s[i] != NUL && s[i + 1] == ch) {
            assert ch <= Pick(prev, Next(t, i)) < 'd';
            ch := ch + 1 as char;
            continue;
          }
          s[i] := ch;
          n := n + 1;
          break;
        }
      }
      assert s[..i + 1] == s[..i] + [s[i]];
      i := i + 1;
    }
    if i < |t| { assert false; }
    assert t[..|t|] == t && s[i..] == orig[i..];
    assert s[..] == s[..i] + s[i..];
  }

  // ---------- what the result means ----------

  lemma {:induction false} DoneIsPrefix(t: string, needle: char, j: nat, k: nat)
    requires j <= k <= |t|
    ensures Done(t, needle, k)[..j] == Done(t, needle, j)
  {
    if j < k {
      DoneIsPrefix(t, needle, j, k - 1);
      assert Done(t, needle, k)[..j] == Done(t, needle, k - 1)[..j];
    }
  }

  /** Position by position, the result is the greedy choice. */
  lemma ReplacedAt(t: string, needle: char, i: nat)
    requires i < |t|
    ensures var r := Replaced(t, needle);
            r[i] == if t[i] == needle then Pick(if i == 0 then NUL else r[i - 1], Next(t, i)) else t[i]
  {
    DoneIsPrefix(t, needle, i + 1, |t|);
    var r, d := Replaced(t, needle), Done(t, needle, i + 1);
    assert r[..i + 1] == d;
    assert r[i] == r[..i + 1][i];
    if i > 0 {
      assert d[i - 1] == r[..i + 1][i - 1] == r[i - 1];
    }
  }

  /** Whatever the needle is, the result is a solution. */
  lemma ReplacedIsSolution(t: string, needle: char)
    requires NulFree(t)
    ensures Solution(t, needle, Replaced(t, needle))
  {
    var r := Replaced(t, needle);
    forall i | 0 <= i < |t|
      ensures t[i] != needle ==> r[i] == t[i]
      ensures t[i] == needle ==> 'a' <= r[i] <= 'z'
      ensures t[i] == needle && i > 0 ==> r[i] != r[i - 1]
      ensures t[i] == needle && i + 1 < |t| ==> r[i] != r[i + 1]
    {
      ReplacedAt(t, needle, i);
      if i + 1 < |t| {
        ReplacedAt(t, needle, i + 1);
      }
    }
  }

  lemma {:induction false} FirstDifference(r: string, u: string) returns (i: nat)
    requires |r| == |u| && r != u
    ensures i < |r| && r[..i] == u[..i] && r[i] != u[i]
  {
    if r[0] != u[0] {
      i := 0;
    } else {
      assert r == [r[0]] + r[1..] && u == [u[0]] + u[1..];
      i := FirstDifference(r[1..], u[1..]);
      assert r[..i + 1] == [r[0]] + r[1..][..i] && u[..i + 1] == [u[0]] + u[1..][..i];
      i := i + 1;
    }
  }

  // ---------- when the result is the least solution ----------

  /** A place at which the greedy choice gives way to a needle that it replaces next. */
  predicate BadAt(t: string, needle: char, i: nat)
    requires i + 1 < |t|
  {
    && t[i] == needle && t[i + 1] == needle
    && (needle == 'a' || (needle == 'b' && i > 0 && (t[i - 1] == 'a' || t[i - 1] == 'b')))
  }

  /** Two adjacent needles 'a', or "abb" or "bbb" with the needle 'b'. */
  predicate Bad(t: string, needle: char) {
    exists i :: 0 <= i < |t| - 1 && BadAt(t, needle, i)
  }

  function Before(r: string, i: nat): char
    requires i <= |r|
  {
    if i == 0 then NUL else r[i - 1]
  }

  /** Without such a place no solution is less than the greedy one. */
  lemma ReplacedIsLeast(t: string, needle: char, u: string)
    requires NulFree(t) && !Bad(t, needle) && Solution(t, needle, u)
    ensures u == Replaced(t, needle) || LexLess(Replaced(t, needle), u)
  {
    var r := Replaced(t, needle);
    if u != r {
      var i := FirstDifference(r, u);
      ReplacedAt(t, needle, i);
      if i > 0 {
        assert r[i - 1] == r[..i][i - 1] == u[..i][i - 1] == u[i - 1];
        ReplacedAt(t, needle, i - 1);
      }
      if i + 1 < |t| && t[i + 1] == needle {
        assert !BadAt(t, needle, i);
      }
      assert r[i] < u[i];
    }
  }

  /** The start of a solution. */
  ghost predicate Start(t: string, needle: char, p: string) {
    && |p| <= |t|
    && (forall i :: 0 <= i < |p| && t[i] != needle ==> p[i] == t[i])
    && (forall i :: 0 <= i < |p| && t[i] == needle ==>
          && 'a' <= p[i] <= 'z'
          && (i > 0 ==> p[i] != p[i - 1])
          && (i + 1 < |p| ==> p[i] != p[i + 1])
          && (i + 1 < |t| && t[i + 1] != needle ==> p[i] != t[i + 1]))
  }

  function Choose(t: string, needle: char, p: string): char
    requires |p| < |t|
  {
    if t[|p|] == needle then Pick(Before(p, |p|), Next(t, |p|)) else t[|p|]
  }

  lemma StartGrows(t: string, needle: char, p: string)
    requires Start(t, needle, p) && |p| < |t|
    ensures Start(t, needle, p + [Choose(t, needle, p)])
  {}

  /** A start of a solution can be completed. */
  lemma {:induction false} Complete(t: string, needle: char, p: string) returns (u: string)
    requires Start(t, needle, p)
    ensures Solution(t, needle, u) && p <= u
    decreases |t| - |p|
  {
    if |p| == |t| {
      u := p;
    } else {
      StartGrows(t, needle, p);
      u := Complete(t, needle, p + [Choose(t, needle, p)]);
    }
  }

  lemma NotLess(r: string, u: string, i: nat)
    requires i < |r| == |u| && r[..i] == u[..i] && u[i] < r[i]
    ensures r != u && !LexLess(r, u)
  {
    forall k | 0 <= k < |r| ensures r[..k] == u[..k] ==> r[k] >= u[k] {
      if k < i {
        assert r[k] == r[..i][k] && u[k] == u[..i][k];
      } else if k > i {
        assert r[..k][i] == r[i] && u[..k][i] == u[i];
      }
    }
  }

  /** A smaller letter that another needle follows starts a smaller solution. */
  lemma SmallerSolution(t: string, needle: char, i: nat, c: char)
    requires NulFree(t) && i + 1 < |t| && t[i] == needle && t[i + 1] == needle
    requires 'a' <= c < Replaced(t, needle)[i] && c != Before(Replaced(t, needle), i)
    ensures !IsLeastSolution(t, needle, Replaced(t, needle))
  {
    var r := Replaced(t, needle);
    ReplacedIsSolution(t, needle);
    var p := r[..i] + [c];
    var u := Complete(t, needle, p);
    assert u[i] == p[i] == c && u[..i] == p[..i] == r[..i];
    hide Solution, Replaced, Start;
    NotLess(r, u, i);
  }

  /** Where the greedy choice is made badly, a smaller letter was possible there or at the
      needle before. */
  lemma BadIsNotLeast(t: string, needle: char, i: nat)
    requires NulFree(t) && i + 1 < |t| && BadAt(t, needle, i)
    ensures !IsLeastSolution(t, needle, Replaced(t, needle))
  {
    var r := Replaced(t, needle);
    ReplacedAt(t, needle, i);
    if i > 0 { ReplacedAt(t, needle, i - 1); }
    if needle == 'a' {
      SmallerSolution(t, needle, i, 'a');
    } else if r[i - 1] == 'a' {
      SmallerSolution(t, needle, i, 'b');
    } else {
      SmallerSolution(t, needle, i - 1, 'b');
    }
  }

  /** For every text: the result is the least solution exactly if the text has no bad
      place. */
  lemma LeastIffNotBad(t: string, needle: char)
    requires NulFree(t)
    ensures IsLeastSolution(t, needle, Replaced(t, needle)) <==> !Bad(t, needle)
  {
    if Bad(t, needle) {
      var i :| 0 <= i < |t| - 1 && BadAt(t, needle, i);
      BadIsNotLeast(t, needle, i);
    } else {
      ReplacedIsSolution(t, needle);
      forall u | Solution(t, needle, u) ensures u == Replaced(t, needle) || LexLess(Replaced(t, needle), u) {
        ReplacedIsLeast(t, needle, u);
      }
    }
  }

  lemma CounterexampleForA()
    ensures !IsLeastSolution("aa", 'a', Replaced("aa", 'a'))
  {
    assert BadAt("aa", 'a', 0);
    LeastIffNotBad("aa", 'a');
  }

  lemma CounterexampleForB()
    ensures !IsLeastSolution("abb", 'b', Replaced("abb", 'b'))
  {
    assert BadAt("abb", 'b', 1);
    LeastIffNotBad("abb", 'b');
  }

  /** The result is the least solution of every text exactly when the needle is
      neither 'a' nor 'b'. */
  lemma LeastForAllTextsIff(needle: char)
    ensures (forall t :: NulFree(t) ==> IsLeastSolution(t, needle, Replaced(t, needle)))
            <==> needle != 'a' && needle != 'b'
  {
    if needle != 'a' && needle != 'b' {
      forall t | NulFree(t) ensures IsLeastSolution(t, needle, Replaced(t, needle)) {
        LeastIffNotBad(t, needle);
      }
    } else if needle == 'a' {
      CounterexampleForA();
      assert NulFree("aa");
    } else {
      CounterexampleForB();
      assert NulFree("abb");
    }
  }
}
