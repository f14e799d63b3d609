/** The order in which a pass takes its steps. */
module PassOrder {
  import opened DirtySurface
  import opened CompositePass

  /** Every occurrence of `a` comes before every occurrence of `b`. */
  ghost predicate AllBefore<T>(s: seq<T>, a: T, b: T) {
    forall i, j :: 0 <= i < |s| && 0 <= j < |s| && s[i] == a && s[j] == b ==> i < j
  }

  lemma BeforeConcat<T>(s: seq<T>, t: seq<T>, a: T, b: T)
    requires AllBefore(s, a, b) && AllBefore(t, a, b) && (b !in s || a !in t)
    ensures AllBefore(s + t, a, b)
  {
    forall i, j | 0 <= i < |s + t| && 0 <= j < |s + t| && (s + t)[i] == a && (s + t)[j] == b ensures i < j {
      if j < |s| { assert s[j] in s; }
      if i >= |s| { assert t[i - |s|] in t; }
    }
  }

  lemma NeverBefore<T>(s: seq<T>, a: T, b: T)
    requires a !in s || b !in s
    ensures AllBefore(s, a, b)
  {
    forall i | 0 <= i < |s| ensures (s[i] == a ==> a in s) && (s[i] == b ==> b in s) {}
  }

  lemma BeforeLast<T>(s: seq<T>, x: T, a: T, b: T)
    requires a != b
    ensures AllBefore(s + [x], a, b) <==> AllBefore(s, a, b) && (x == a ==> b !in s)
  {
    var r := s + [x];
    if AllBefore(r, a, b) {
      forall i, j | 0 <= i < |s| && 0 <= j < |s| && s[i] == a && s[j] == b ensures i < j {
        assert r[i] == a && r[j] == b;
      }
      if b in s {
        var j :| 0 <= j < |s| && s[j] == b;
        assert r[|s|] == x && r[j] == b;
      }
    } else if AllBefore(s, a, b) && (x == a ==> b !in s) {
      BeforeOne(x, a, b);
      BeforeConcat(s, [x], a, b);
    }
  }

  lemma BeforeOne<T>(x: T, a: T, b: T)
    requires a != b
    ensures AllBefore([x], a, b)
  {}

  /** How often a step is taken. */
  function Times(ls: seq<Label>, l: Label): nat {
    if ls == [] then 0 else Times(ls[..|ls| - 1], l) + if ls[|ls| - 1] == l then 1 else 0
  }

  lemma {:induction false} TimesConcat(a: seq<Label>, b: seq<Label>, l: Label)
    ensures Times(a + b, l) == Times(a, l) + Times(b, l)
  {
    if b == [] {
      assert a + b == a;
    } else {
      TimesConcat(a, b[..|b| - 1], l);
      assert (a + b)[..|a + b| - 1] == a + b[..|b| - 1];
    }
  }

  lemma {:induction false} NotThere(ls: seq<Label>, l: Label)
    requires l !in ls
    ensures Times(ls, l) == 0
  {
    if ls != [] {
      assert ls[|ls| - 1] in ls;
      NotThere(ls[..|ls| - 1], l);
    }
  }

  lemma TimesOne(l: Label)
    ensures Times([l], l) == 1
  {
    assert [l][..0] == [];
  }

  // ---------- what is prescribed and what is done ----------

  lemma {:induction false} DoneAsPrescribed(ls: seq<Label>, l: Label)
    requires Prescribes(l)
    ensures (l in Acts(ls) <==> l in ls) && Times(Acts(ls), l) == Times(ls, l)
  {
    if ls != [] {
      hide Prescribes;
      var init, x := ls[..|ls| - 1], ls[|ls| - 1];
      DoneAsPrescribed(init, l);
      assert ls == init + [x];
      TimesConcat(Acts(init), [x], l);
      TimesConcat(init, [x], l);
      if x != l { NotThere([x], l); }
    }
  }

  lemma {:induction false} OrderedAsPrescribed(ls: seq<Label>, a: Label, b: Label)
    requires Prescribes(a) && Prescribes(b) && a != b && AllBefore(Acts(ls), a, b)
    ensures AllBefore(ls, a, b)
  {
    if ls != [] {
      hide Prescribes, AllBefore;
      var init, x := ls[..|ls| - 1], ls[|ls| - 1];
      assert ls == init + [x];
      BeforeLast(Acts(init), x, a, b);
      BeforeLast(init, x, a, b);
      DoneAsPrescribed(init, b);
      OneMoreAct(init, x);
      OrderedAsPrescribed(init, a, b);
    } else {
      hide Prescribes;
    }
  }

  // ---------- one layer ----------

  /** The layer whose steps a label belongs to. */
  function Owner(scene: Scene, l: Label): nat {
    match l
    case Reset(name) => name
    case Refresh(name) => name
    case On(WindowNode(name, _), _) => name
    case On(_, _) => scene.topmost.name
  }

  lemma {:induction false} ListLabels(ids: seq<Id>)
    ensures forall l :: l in LockTests(ids) <==> l.On? && l.id in ids && (l.event.Lock? || l.event.Test?)
    ensures forall l :: l in Unlocks(ids) <==> l.On? && l.id in ids && l.event.Unlock?
  {
    if ids != [] {
      var init, last := ids[..|ids| - 1], ids[|ids| - 1];
      ListLabels(init);
      assert ids == init + [last];
    }
  }

  lemma LayerOwns(scene: Scene, layer: Layer, dirty: bool)
    requires DistinctSlots(layer.windows)
    ensures forall l :: l in LayerActs(scene, layer, dirty) ==> Owner(scene, l) == layer.name
  {
    hide NodesOf, LockTests, Unlocks;
    ListLabels(NodesOf(scene, layer));
    NodesOfFacts(scene, layer);
  }

  /** The dirty region is asked for, then every node is tested, then the region is
      refreshed, then every node is unlocked. A clean layer is not refreshed. */
  ghost predicate InOrder(scene: Scene, layer: Layer, dirty: bool, ls: seq<Label>) {
    && Times(ls, Reset(layer.name)) == 1
    && Times(ls, Refresh(layer.name)) == (if dirty then 1 else 0)
    && (dirty ==> forall id :: Shows(scene, layer, id) ==> NodeInOrder(layer, id, ls))
  }

  ghost predicate NodeInOrder(layer: Layer, id: Id, ls: seq<Label>) {
    && On(id, Lock) in ls && On(id, Test) in ls && On(id, Unlock) in ls
    && AllBefore(ls, Reset(layer.name), On(id, Lock))
    && AllBefore(ls, On(id, Test), Refresh(layer.name))
    && AllBefore(ls, Refresh(layer.name), On(id, Unlock))
  }

  lemma LayerInOrder(scene: Scene, layer: Layer, dirty: bool)
    requires DistinctSlots(layer.windows)
    ensures InOrder(scene, layer, dirty, LayerActs(scene, layer, dirty))
  {
    hide NodesOf, LockTests, Unlocks, AllBefore, Times, Shows;
    var ids, reset, refresh := NodesOf(scene, layer), Reset(layer.name), Refresh(layer.name);
    var first, last := LockTests(ids), Unlocks(ids);
    var rest := if dirty then first + [refresh] + last else [];
    ListLabels(ids);
    NodesOfFacts(scene, layer);
    TimesConcat([reset], rest, reset);
    TimesConcat([reset], rest, refresh);
    TimesOne(reset);
    NotThere(rest, reset);
    NotThere([reset], refresh);
    if dirty {
      TimesConcat(first + [refresh], last, refresh);
      TimesConcat(first, [refresh], refresh);
      TimesOne(refresh);
      NotThere(first, refresh);
      NotThere(last, refresh);
      forall id | Shows(scene, layer, id) ensures NodeInOrder(layer, id, [reset] + rest) {
        NodeOfLayerInOrder(layer, first, last, id);
        assert On(id, Lock) in first && On(id, Test) in first && On(id, Unlock) in last;
      }
    } else {
      NotThere(rest, refresh);
    }
  }

  lemma NodeOfLayerInOrder(layer: Layer, first: seq<Label>, last: seq<Label>, id: Id)
    requires forall l :: l in first ==> l.On? && (l.event.Lock? || l.event.Test?)
    requires forall l :: l in last ==> l.On? && l.event.Unlock?
    ensures var ls, reset, refresh := [Reset(layer.name)] + (first + [Refresh(layer.name)] + last), Reset(layer.name), Refresh(layer.name);
            && AllBefore(ls, reset, On(id, Lock))
            && AllBefore(ls, On(id, Test), refresh)
            && AllBefore(ls, refresh, On(id, Unlock))
  {
    hide AllBefore;
    var reset, refresh := Reset(layer.name), Refresh(layer.name);
    var rest := first + [refresh] + last;
    NeverBefore([reset], reset, On(id, Lock));
    NeverBefore(rest, reset, On(id, Lock));
    BeforeConcat([reset], rest, reset, On(id, Lock));
    NeverBefore(first, On(id, Test), refresh);
    NeverBefore([refresh], On(id, Test), refresh);
    BeforeConcat(first, [refresh], On(id, Test), refresh);
    NeverBefore(last, On(id, Test), refresh);
    BeforeConcat(first + [refresh], last, On(id, Test), refresh);
    NeverBefore([reset], On(id, Test), refresh);
    BeforeConcat([reset], rest, On(id, Test), refresh);
    NeverBefore(first + [refresh], refresh, On(id, Unlock));
    NeverBefore(last, refresh, On(id, Unlock));
    BeforeConcat(first + [refresh], last, refresh, On(id, Unlock));
    NeverBefore([reset], refresh, On(id, Unlock));
    BeforeConcat([reset], rest, refresh, On(id, Unlock));
  }

  // ---------- a pass ----------

  ghost predicate NotOwned(scene: Scene, ls: seq<Label>, name: nat) {
    forall l :: l in ls ==> Owner(scene, l) != name
  }

  lemma {:induction false} OthersNotOwned(scene: Scene, dirty: Answers, k: nat, name: nat)
    requires WellFormed(scene) && k <= |scene.layers|
    requires forall i :: 0 <= i < k && !IsTopmost(scene, scene.layers[i]) ==> scene.layers[i].name != name
    ensures NotOwned(scene, OtherActs(scene, dirty, k), name)
  {
    hide LayerActs, Owner;
    if k != 0 {
      OthersNotOwned(scene, dirty, k - 1, name);
      LayerOwns(scene, scene.layers[k - 1], dirty(scene.layers[k - 1].name));
    }
  }

  /** The steps of a layer other than the topmost lie together. Behind them are none of a
      layer that is not behind it. */
  lemma {:induction false} OtherSegment(scene: Scene, dirty: Answers, k: nat, i: nat, name: nat) returns (post: seq<Label>)
    requires WellFormed(scene) && i < k <= |scene.layers| && !IsTopmost(scene, scene.layers[i])
    requires forall j :: i < j < k && !IsTopmost(scene, scene.layers[j]) ==> scene.layers[j].name != name
    ensures var l := scene.layers[i];
            && OtherActs(scene, dirty, k) == OtherActs(scene, dirty, i) + LayerActs(scene, l, dirty(l.name)) + post
            && NotOwned(scene, post, l.name) && NotOwned(scene, post, name)
  {
    hide LayerActs, Owner;
    if i == k - 1 {
      post := [];
    } else {
      var l := scene.layers[k - 1];
      post := OtherSegment(scene, dirty, k - 1, i, name);
      if !IsTopmost(scene, l) {
        LayerOwns(scene, l, dirty(l.name));
        var mine := LayerActs(scene, scene.layers[i], dirty(scene.layers[i].name));
        assert (OtherActs(scene, dirty, i) + mine + post) + LayerActs(scene, l, dirty(l.name))
            == OtherActs(scene, dirty, i) + mine + (post + LayerActs(scene, l, dirty(l.name)));
        post := post + LayerActs(scene, l, dirty(l.name));
      }
    }
  }

  /** One layer is handled before another: the topmost first, the others as listed. */
  predicate LayerBefore(scene: Scene, i: nat, j: nat)
    requires i < |scene.layers| && j < |scene.layers|
  {
    !IsTopmost(scene, scene.layers[j]) && (IsTopmost(scene, scene.layers[i]) || i < j)
  }

  /** The steps of a layer lie together in a pass, and those of `earlier`, a layer that is
      handled before it, are not behind them. */
  lemma Segment(scene: Scene, dirty: Answers, i: nat, earlier: nat) returns (pre: seq<Label>, post: seq<Label>)
    requires WellFormed(scene) && i < |scene.layers| && earlier < |scene.layers|
    ensures var l := scene.layers[i];
            && PassActs(scene, dirty) == pre + LayerActs(scene, l, dirty(l.name)) + post
            && NotOwned(scene, pre, l.name) && NotOwned(scene, post, l.name)
            && (LayerBefore(scene, earlier, i) ==> NotOwned(scene, post, scene.layers[earlier].name))
  {
    hide LayerActs, OtherActs, Owner;
    var l, t, n := scene.layers[i], scene.topmost, |scene.layers|;
    var top := LayerActs(scene, t, dirty(t.name));
    if IsTopmost(scene, l) {
      TopmostIsListed(scene, i);
      pre, post := [], OtherActs(scene, dirty, n);
      OthersNotOwned(scene, dirty, n, l.name);
      assert [] + top + post == top + post;
    } else {
      post := OtherSegment(scene, dirty, n, i, if LayerBefore(scene, earlier, i) then scene.layers[earlier].name else l.name);
      pre := top + OtherActs(scene, dirty, i);
      LayerOwns(scene, t, dirty(t.name));
      OthersNotOwned(scene, dirty, i, l.name);
      var mine := LayerActs(scene, l, dirty(l.name));
      assert top + (OtherActs(scene, dirty, i) + mine + post) == (top + OtherActs(scene, dirty, i)) + mine + post;
    }
  }

  lemma TopmostIsListed(scene: Scene, i: nat)
    requires WellFormed(scene) && i < |scene.layers| && IsTopmost(scene, scene.layers[i])
    ensures scene.layers[i] == scene.topmost
  {
    var t :| 0 <= t < |scene.layers| && scene.layers[t] == scene.topmost;
    assert t == i;
  }

  /** What is in none of the parts around does not matter. */
  lemma OrderedInside(pre: seq<Label>, mine: seq<Label>, post: seq<Label>, a: Label, b: Label)
    requires AllBefore(mine, a, b) && a !in pre && b !in pre && a !in post && b !in post
    ensures AllBefore(pre + mine + post, a, b)
  {
    hide AllBefore;
    NeverBefore(pre, a, b);
    NeverBefore(post, a, b);
    BeforeConcat(pre, mine, a, b);
    BeforeConcat(pre + mine, post, a, b);
  }

  lemma CountedInside(pre: seq<Label>, mine: seq<Label>, post: seq<Label>, l: Label)
    requires l !in pre && l !in post
    ensures Times(pre + mine + post, l) == Times(mine, l)
  {
    hide Times;
    TimesConcat(pre + mine, post, l);
    TimesConcat(pre, mine, l);
    NotThere(pre, l);
    NotThere(post, l);
  }

  lemma OwnedByLayer(scene: Scene, layer: Layer, id: Id, e: Event)
    requires Shows(scene, layer, id)
    ensures Owner(scene, On(id, e)) == layer.name
  {}

  /** For every layer and in every interleaving: a dirty layer is refreshed exactly once,
      after all tests of its nodes and before all their unlocks; a clean one never. */
  lemma PassInOrder(scene: Scene, dirty: Answers, ls: seq<Label>, i: nat)
    requires WellFormed(scene) && Acts(ls) == PassActs(scene, dirty) && i < |scene.layers|
    ensures InOrder(scene, scene.layers[i], dirty(scene.layers[i].name), ls)
  {
    hide LayerActs, PassActs, AllBefore, Times, Shows, Owner, Acts;
    var layer := scene.layers[i];
    var d := dirty(layer.name);
    var pre, post := Segment(scene, dirty, i, i);
    var mine := LayerActs(scene, layer, d);
    var reset, refresh := Reset(layer.name), Refresh(layer.name);
    LayerInOrder(scene, layer, d);
    assert Owner(scene, reset) == Owner(scene, refresh) == layer.name by { OwnsItself(scene, layer.name); }
    CountedInside(pre, mine, post, reset);
    CountedInside(pre, mine, post, refresh);
    DoneAsPrescribed(ls, reset);
    DoneAsPrescribed(ls, refresh);
    if d {
      forall id | Shows(scene, layer, id) ensures NodeInOrder(layer, id, ls) {
        OwnedByLayer(scene, layer, id, Lock);
        OwnedByLayer(scene, layer, id, Test);
        OwnedByLayer(scene, layer, id, Unlock);
        DoneAsPrescribed(ls, On(id, Lock));
        DoneAsPrescribed(ls, On(id, Test));
        DoneAsPrescribed(ls, On(id, Unlock));
        OrderedInside(pre, mine, post, reset, On(id, Lock));
        OrderedInside(pre, mine, post, On(id, Test), refresh);
        OrderedInside(pre, mine, post, refresh, On(id, Unlock));
        OrderedAsPrescribed(ls, reset, On(id, Lock));
        OrderedAsPrescribed(ls, On(id, Test), refresh);
        OrderedAsPrescribed(ls, refresh, On(id, Unlock));
      }
    }
  }

  lemma OwnsItself(scene: Scene, name: nat)
    ensures Owner(scene, Reset(name)) == name && Owner(scene, Refresh(name)) == name
  {}

  // ---------- the order of layers ----------

  /** The steps for one layer all come before those for the next. */
  lemma LayersInOrder(scene: Scene, dirty: Answers, ls: seq<Label>, i: nat, j: nat, a: Label, b: Label)
    requires WellFormed(scene) && Acts(ls) == PassActs(scene, dirty)
    requires i < |scene.layers| && j < |scene.layers| && LayerBefore(scene, i, j)
    requires Prescribes(a) && Prescribes(b)
    requires Owner(scene, a) == scene.layers[i].name && Owner(scene, b) == scene.layers[j].name
    ensures AllBefore(ls, a, b)
  {
    hide LayerActs, PassActs, AllBefore, Owner, Acts, Prescribes;
    var pre, post := Segment(scene, dirty, j, i);
    var l := scene.layers[j];
    var mine := LayerActs(scene, l, dirty(l.name));
    LayerOwns(scene, l, dirty(l.name));
    assert scene.layers[i].name != l.name;
    NeverBefore(pre, a, b);
    NeverBefore(mine, a, b);
    NeverBefore(post, a, b);
    BeforeConcat(pre, mine, a, b);
    BeforeConcat(pre + mine, post, a, b);
    OrderedAsPrescribed(ls, a, b);
  }

  // ---------- the order of nodes ----------

  ghost predicate WindowBefore(ws: seq<Window>, s: nat, t: nat) {
    exists p, q :: 0 <= p < q < |ws| && ws[p].slot == s && ws[q].slot == t
  }

  /** Pop-ups come first, then the windows in the order of the walk, then the wallpaper. */
  ghost predicate NodeBefore(layer: Layer, a: Id, b: Id) {
    match (a, b)
    case (PopupNode(i), PopupNode(j)) => i < j
    case (PopupNode(_), _) => true
    case (WindowNode(_, s), WindowNode(_, t)) => WindowBefore(layer.windows, s, t)
    case (WindowNode(_, _), WallpaperNode) => true
    case _ => false
  }

  lemma PopupsInOrder(n: nat, i: nat, j: nat)
    requires i < j
    ensures AllBefore(PopupIds(n), PopupNode(i), PopupNode(j))
  {}

  lemma {:induction false} VisibleInOrder(layer: Layer, k: nat, p: nat, q: nat)
    requires DistinctSlots(layer.windows) && k <= |layer.windows| && p < q < |layer.windows|
    ensures var (s, t) := (layer.windows[p].slot, layer.windows[q].slot);
            AllBefore(VisibleIds(layer, k), WindowNode(layer.name, s), WindowNode(layer.name, t))
  {
    var a, b := WindowNode(layer.name, layer.windows[p].slot), WindowNode(layer.name, layer.windows[q].slot);
    if k != 0 {
      hide AllBefore;
      VisibleInOrder(layer, k - 1, p, q);
      if layer.windows[k - 1].visible {
        var x := WindowNode(layer.name, layer.windows[k - 1].slot);
        if x == a { LaterNotVisible(layer, k - 1, q); }
        BeforeLast(VisibleIds(layer, k - 1), x, a, b);
      }
    }
  }

  lemma LaterNotVisible(layer: Layer, k: nat, q: nat)
    requires DistinctSlots(layer.windows) && k < q < |layer.windows|
    ensures WindowNode(layer.name, layer.windows[q].slot) !in VisibleIds(layer, k)
  {
    hide VisibleIds;
    VisibleFacts(layer, k);
    assert forall i :: 0 <= i < k ==> layer.windows[..k][i] == layer.windows[i];
  }

  lemma NodesInOrder(scene: Scene, layer: Layer, a: Id, b: Id)
    requires DistinctSlots(layer.windows) && Shows(scene, layer, a) && Shows(scene, layer, b) && NodeBefore(layer, a, b)
    ensures a != b && AllBefore(NodesOf(scene, layer), a, b)
  {
    hide AllBefore, VisibleIds, PopupIds;
    var ws := layer.windows;
    var menus, visible, wall := MenuIds(scene, layer), VisibleIds(layer, |ws|), WallpaperIds(scene, layer);
    PopupFacts(scene.popups);
    VisibleFacts(layer, |ws|);
    if a.PopupNode? && b.PopupNode? {
      PopupsInOrder(scene.popups, a.index, b.index);
      if menus == [] { NeverBefore(menus, a, b); }
    } else {
      NeverBefore(menus, a, b);
    }
    if a.WindowNode? && b.WindowNode? {
      var p, q :| 0 <= p < q < |ws| && ws[p].slot == a.index && ws[q].slot == b.index;
      VisibleInOrder(layer, |ws|, p, q);
    } else {
      NeverBefore(visible, a, b);
    }
    NeverBefore(wall, a, b);
    BeforeConcat(menus, visible, a, b);
    BeforeConcat(menus + visible, wall, a, b);
  }

  lemma {:induction false} StepsFollowNodes(ids: seq<Id>, a: Id, b: Id)
    requires a != b && AllBefore(ids, a, b)
    ensures AllBefore(LockTests(ids), On(a, Test), On(b, Test))
    ensures AllBefore(Unlocks(ids), On(a, Unlock), On(b, Unlock))
  {
    if ids != [] {
      hide AllBefore;
      var init, last := ids[..|ids| - 1], ids[|ids| - 1];
      assert ids == init + [last];
      ListLabels(init);
      BeforeLast(init, last, a, b);
      StepsFollowNodes(init, a, b);
      BeforeLast(LockTests(init), On(last, Lock), On(a, Test), On(b, Test));
      BeforeLast(LockTests(init) + [On(last, Lock)], On(last, Test), On(a, Test), On(b, Test));
      BeforeLast(Unlocks(init), On(last, Unlock), On(a, Unlock), On(b, Unlock));
      assert LockTests(ids) == LockTests(init) + [On(last, Lock)] + [On(last, Test)];
    }
  }

  lemma NodesOfLayerInOrder(scene: Scene, layer: Layer, a: Id, b: Id)
    requires DistinctSlots(layer.windows) && Shows(scene, layer, a) && Shows(scene, layer, b) && NodeBefore(layer, a, b)
    ensures AllBefore(LayerActs(scene, layer, true), On(a, Test), On(b, Test))
    ensures AllBefore(LayerActs(scene, layer, true), On(a, Unlock), On(b, Unlock))
  {
    hide NodesOf, LockTests, Unlocks, AllBefore, Shows, NodeBefore;
    var ids := NodesOf(scene, layer);
    var reset, first, refresh, last := [Reset(layer.name)], LockTests(ids), [Refresh(layer.name)], Unlocks(ids);
    NodesInOrder(scene, layer, a, b);
    StepsFollowNodes(ids, a, b);
    ListLabels(ids);
    OrderedInside(reset, first, refresh + last, On(a, Test), On(b, Test));
    OrderedInside(reset + first + refresh, last, [], On(a, Unlock), On(b, Unlock));
    assert LayerActs(scene, layer, true) == reset + first + (refresh + last);
    assert LayerActs(scene, layer, true) == (reset + first + refresh) + last + [];
  }

  /** The nodes of a layer are tested, and unlocked, in their order. */
  lemma WalkInOrder(scene: Scene, dirty: Answers, ls: seq<Label>, i: nat, a: Id, b: Id)
    requires WellFormed(scene) && Acts(ls) == PassActs(scene, dirty) && i < |scene.layers|
    requires var l := scene.layers[i]; Shows(scene, l, a) && Shows(scene, l, b) && NodeBefore(l, a, b)
    ensures AllBefore(ls, On(a, Test), On(b, Test)) && AllBefore(ls, On(a, Unlock), On(b, Unlock))
  {
    hide LayerActs, PassActs, AllBefore, Shows, Owner, Acts, NodeBefore;
    var l := scene.layers[i];
    var d := dirty(l.name);
    var pre, post := Segment(scene, dirty, i, i);
    var mine := LayerActs(scene, l, d);
    OwnedByLayer(scene, l, a, Test);
    OwnedByLayer(scene, l, b, Test);
    OwnedByLayer(scene, l, a, Unlock);
    OwnedByLayer(scene, l, b, Unlock);
    NodesInOrder(scene, l, a, b);
    if d {
      NodesOfLayerInOrder(scene, l, a, b);
    } else {
      CleanLayer(scene, l);
      NeverBefore(mine, On(a, Test), On(b, Test));
      NeverBefore(mine, On(a, Unlock), On(b, Unlock));
    }
    OrderedInside(pre, mine, post, On(a, Test), On(b, Test));
    OrderedInside(pre, mine, post, On(a, Unlock), On(b, Unlock));
    OrderedAsPrescribed(ls, On(a, Test), On(b, Test));
    OrderedAsPrescribed(ls, On(a, Unlock), On(b, Unlock));
  }

  lemma CleanLayer(scene: Scene, layer: Layer)
    ensures forall l :: l in LayerActs(scene, layer, false) ==> l.Reset?
  {}
}
