/** The search for a slot count under which the hash of `str2key` is perfect. */
module PerfectHash {
  import opened Bytes
  import opened Fnv

  const INT_MAX := 0x7FFF_FFFF

  ghost predicate AllTerminated(keywords: seq<Octets>) {
    forall i :: 0 <= i < |keywords| ==> Readable(FNV64, Some(keywords[i]), 0)
  }

  /** The slot a keyword falls into. */
  function Slot(keyword: Octets, nrSlots: nat): (k: nat)
    requires 0 < nrSlots && Readable(FNV64, Some(keyword), 0)
    ensures k < nrSlots
  {
    Fnv1a(FNV64, Hashed(FNV64, keyword, 0)) % nrSlots
  }

  ghost function SlotsOf(keywords: seq<Octets>, nrSlots: nat): seq<nat>
    requires 0 < nrSlots && AllTerminated(keywords)
  {
    seq(|keywords|, i requires 0 <= i < |keywords| => Slot(keywords[i], nrSlots))
  }

  ghost predicate Injective(s: seq<nat>) {
    forall i, j :: 0 <= i < j < |s| ==> s[i] != s[j]
  }

  /** No two keywords share a slot. */
  ghost predicate Perfect(keywords: seq<Octets>, nrSlots: nat)
    requires 0 < nrSlots && AllTerminated(keywords)
  {
    Injective(SlotsOf(keywords, nrSlots))
  }

  /** For keywords given by their texts: no two hashes agree modulo the slot count. */
  lemma PerfectByTexts(keywords: seq<Octets>, texts: seq<Octets>, nrSlots: nat)
    requires 0 < nrSlots && |texts| == |keywords|
    requires forall i :: 0 <= i < |texts| ==> IsText(keywords[i], texts[i]) && |texts[i]| <= FNV64.sizeMax
    ensures AllTerminated(keywords)
    ensures Perfect(keywords, nrSlots) <==>
              forall i, j :: 0 <= i < j < |texts| ==> Fnv1a(FNV64, texts[i]) % nrSlots != Fnv1a(FNV64, texts[j]) % nrSlots
  {
    hide Fnv1a, Hashed, Readable, IsText;
    forall i | 0 <= i < |texts|
      ensures Readable(FNV64, Some(keywords[i]), 0)
      ensures Hashed(FNV64, keywords[i], 0) == texts[i]
    {
      HashedText(FNV64, keywords[i], texts[i], 0);
      assert texts[i][..|texts[i]|] == texts[i];
    }
    var slots := SlotsOf(keywords, nrSlots);
    assert forall i :: 0 <= i < |texts| ==> slots[i] == Fnv1a(FNV64, texts[i]) % nrSlots;
  }

  ghost function Image(s: seq<nat>): set<nat> {
    set x | x in s
  }

  /** Pigeonholes: a list has as many values as entries exactly when no value repeats. */
  lemma {:induction false} ImageSize(s: seq<nat>)
    ensures |Image(s)| <= |s|
    ensures |Image(s)| == |s| <==> Injective(s)
  {
    if s != [] {
      var init, last := s[..|s| - 1], s[|s| - 1];
      ImageSize(init);
      assert s == init + [last];
      assert Image(s) == Image(init) + {last};
      if last in init {
        var i :| 0 <= i < |init| && init[i] == last;
        assert s[i] == s[|s| - 1];
        assert Image(s) == Image(init);
      } else if Injective(init) {
        assert Injective(s);
      } else {
        var i, j :| 0 <= i < j < |init| && init[i] == init[j];
        assert s[i] == s[j];
      }
    }
  }

  lemma {:induction false} BoundedSetSize(s: set<nat>, n: nat)
    requires forall x :: x in s ==> x < n
    ensures |s| <= n
  {
    if n == 0 {
      assert s == {};
    } else {
      BoundedSetSize(s - {n - 1}, n - 1);
      assert s <= (s - {n - 1}) + {n - 1};
    }
  }

  /** Fewer slots than keywords can never be perfect. */
  lemma TooFewSlots(keywords: seq<Octets>, nrSlots: nat)
    requires 0 < nrSlots < |keywords| && AllTerminated(keywords)
    ensures !Perfect(keywords, nrSlots)
  {
    ImageSize(SlotsOf(keywords, nrSlots));
    BoundedSetSize(Image(SlotsOf(keywords, nrSlots)), nrSlots);
  }

  ghost function Occupied(slots: seq<Option<Octets>>): set<nat> {
    set k | 0 <= k < |slots| && slots[k].Some?
  }

  lemma Occupy(slots: seq<Option<Octets>>, k: nat, keyword: Octets)
    requires k < |slots|
    ensures Occupied(slots[k := Some(keyword)]) == Occupied(slots) + {k}
  {}

  lemma CountOccupied(slots: seq<Option<Octets>>, slot: Option<Octets>)
    ensures |Occupied(slots + [slot])| == |Occupied(slots)| + if slot.Some? then 1 else 0
  {
    assert Occupied(slots + [slot]) == Occupied(slots) + if slot.Some? then {|slots|} else {};
  }

  lemma ImageOfMore(s: seq<nat>, x: nat)
    ensures Image(s + [x]) == Image(s) + {x}
  {}

  lemma SlotOfKey(keyword: Octets, nrSlots: nat)
    requires 0 < nrSlots && Readable(FNV64, Some(keyword), 0)
    ensures Slot(keyword, nrSlots) == Fnv1a(FNV64, Hashed(FNV64, keyword, 0)) % nrSlots
  {}

  lemma NoneOccupied(n: nat)
    ensures Occupied(seq(n, _ => None)) == {} == Image([])
  {}

  method TryWithNrSlots(keywords: seq<Octets>, nrSlots: nat) returns (found: bool)
    requires 0 < nrSlots <= INT_MAX && AllTerminated(keywords)
    ensures found <==> Perfect(keywords, nrSlots)
  {
    hide Fnv1a, Hashed, IsText, Slot, Injective, Image;
    ghost var all := SlotsOf(keywords, nrSlots);
    NoneOccupied(nrSlots);
    var slots := new Option<Octets>[nrSlots](_ => None);
    for i := 0 to |keywords|
      invariant Occupied(slots[..]) == Image(all[..i])
    {
      SlotOfKey(keywords[i], nrSlots);
      var key := Str2Key(Some(keywords[i]), 0);
      var hval := key % nrSlots;
      ghost var before := slots[..];
      slots[hval] := Some(keywords[i]);
      assert slots[..] == before[hval := Some(keywords[i])];
      Occupy(before, hval, keywords[i]);
      ImageOfMore(all[..i], hval);
      assert all[..i + 1] == all[..i] + [hval];
    }
    assert all[..|keywords|] == all;
    assert Occupied(slots[..]) == Image(all);

    var n := 0;
    for i := 0 to nrSlots
      invariant Occupied(slots[..]) == Image(all)
      invariant n + |Occupied(slots[..i])| == i
    {
      CountOccupied(slots[..i], slots[i]);
      assert slots[..i + 1] == slots[..i] + [slots[i]];
      if slots[i].None? {
        n := n + 1;
      }
    }
    assert slots[..nrSlots] == slots[..];
    assert |Occupied(slots[..])| == |Image(all)|;
    n := nrSlots - n;
    ImageSize(all);
    found := n == |keywords|;
  }

  /** The search of `main`. The first slot count that works is the least of all
      slot counts, not only of those tried. */
  method FindNrSlots(keywords: seq<Octets>) returns (r: Option<nat>)
    requires 0 < |keywords| && 10 * |keywords| <= INT_MAX && AllTerminated(keywords)
    ensures r.Some? ==> |keywords| <= r.value < 10 * |keywords| && Perfect(keywords, r.value)
    ensures r.Some? ==> forall m :: 0 < m < r.value ==> !Perfect(keywords, m)
    ensures r.None? ==> forall m :: 0 < m < 10 * |keywords| ==> !Perfect(keywords, m)
  {
    forall m | 0 < m < |keywords| ensures !Perfect(keywords, m) {
      TooFewSlots(keywords, m);
    }
    var nrSlots := |keywords|;
    while true
      invariant |keywords| <= nrSlots < 10 * |keywords|
      invariant forall m :: 0 < m < nrSlots ==> !Perfect(keywords, m)
      decreases 10 * |keywords| - nrSlots
    {
      var found := TryWithNrSlots(keywords, nrSlots);
      if found {
        return Some(nrSlots);
      }
      nrSlots := nrSlots + 1;
      if !(nrSlots < 10 * |keywords|) {
        return None;
      }
    }
  }
}
