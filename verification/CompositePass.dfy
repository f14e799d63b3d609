/** A composition pass over all layers, interleaved with drawing clients. */
module CompositePass {
  import opened DirtySurface

  /** A node: a pop-up menu or the wallpaper of the topmost layer, or a window. */
  datatype Id = PopupNode(index: nat) | WindowNode(layer: nat, index: nat) | WallpaperNode

  function SlotOf(id: Id): nat {
    match id
    case PopupNode(i) => i
    case WindowNode(_, i) => i
    case WallpaperNode => 0
  }

  datatype Window = Window(slot: nat, visible: bool)

  /** `windows` is in the order of the walk over the z-order. */
  datatype Layer = Layer(name: nat, windows: seq<Window>)

  datatype Scene = Scene(topmost: Layer, layers: seq<Layer>, popups: nat, screen: bool)

  /** The walk yields positive slots, each at most once. */
  predicate DistinctSlots(ws: seq<Window>) {
    && (forall i :: 0 <= i < |ws| ==> ws[i].slot > 0)
    && (forall i, j :: 0 <= i < j < |ws| ==> ws[i].slot != ws[j].slot)
  }

  /** The topmost layer is in the list and no layer is in it twice. */
  predicate WellFormed(scene: Scene) {
    && scene.topmost in scene.layers
    && (forall i, j :: 0 <= i < j < |scene.layers| ==> scene.layers[i].name != scene.layers[j].name)
    && (forall i :: 0 <= i < |scene.layers| ==> DistinctSlots(scene.layers[i].windows))
  }

  // ---------- interleaved runs ----------

  datatype Label = Reset(layer: nat) | Refresh(layer: nat) | On(id: Id, event: Event)

  type Nodes = map<Id, Node>

  function Perform(nodes: Nodes, l: Label): Nodes {
    if l.On? && l.id in nodes then nodes[l.id := Step(nodes[l.id], SlotOf(l.id), l.event)] else nodes
  }

  predicate Possible(nodes: Nodes, l: Label) {
    l.On? ==> l.id in nodes && Enabled(nodes[l.id], SlotOf(l.id), l.event)
  }

  function RunAll(nodes: Nodes, ls: seq<Label>): Nodes {
    if ls == [] then nodes else Perform(RunAll(nodes, ls[..|ls| - 1]), ls[|ls| - 1])
  }

  predicate AllPossible(nodes: Nodes, ls: seq<Label>) {
    ls == [] ||
    (AllPossible(nodes, ls[..|ls| - 1]) && Possible(RunAll(nodes, ls[..|ls| - 1]), ls[|ls| - 1]))
  }

  /** What happens to one node. */
  function Of(ls: seq<Label>, id: Id): seq<Event> {
    if ls == [] then []
    else
      var l := ls[|ls| - 1];
      if l.On? && l.id == id then Of(ls[..|ls| - 1], id) + [l.event] else Of(ls[..|ls| - 1], id)
  }

  lemma StepsOf(n: Node, slot: nat, es: seq<Event>, e: Event)
    ensures Run(n, slot, es + [e]) == Step(Run(n, slot, es), slot, e)
    ensures Legal(n, slot, es + [e]) == (Legal(n, slot, es) && Enabled(Run(n, slot, es), slot, e))
  {
    hide Step, Enabled;
    assert (es + [e])[..|es + [e]| - 1] == es;
  }

  /** Nodes do not influence each other. */
  lemma {:induction false} Projection(nodes: Nodes, ls: seq<Label>, id: Id)
    requires id in nodes && AllPossible(nodes, ls)
    ensures RunAll(nodes, ls).Keys == nodes.Keys
    ensures Legal(nodes[id], SlotOf(id), Of(ls, id))
    ensures RunAll(nodes, ls)[id] == Run(nodes[id], SlotOf(id), Of(ls, id))
  {
    if ls != [] {
      hide Step, Enabled, Run, Legal;
      var init, l := ls[..|ls| - 1], ls[|ls| - 1];
      Projection(nodes, init, id);
      if l.On? && l.id == id {
        StepsOf(nodes[id], SlotOf(id), Of(init, id), l.event);
      }
    } else {
      hide Step, Enabled;
    }
  }

  /** The converse: what is legal for each node is possible for all. */
  lemma {:induction false} LegalTogether(nodes: Nodes, ls: seq<Label>)
    requires forall l :: l in ls && l.On? ==> l.id in nodes
    requires forall id :: id in nodes ==> Legal(nodes[id], SlotOf(id), Of(ls, id))
    ensures AllPossible(nodes, ls)
  {
    if ls != [] {
      hide Step, Enabled, Run, Legal;
      var init, l := ls[..|ls| - 1], ls[|ls| - 1];
      forall id | id in nodes ensures Legal(nodes[id], SlotOf(id), Of(init, id)) {
        if l.On? && l.id == id {
          StepsOf(nodes[id], SlotOf(id), Of(init, id), l.event);
        }
      }
      LegalTogether(nodes, init);
      if l.On? {
        assert l in ls;
        Projection(nodes, init, l.id);
        StepsOf(nodes[l.id], SlotOf(l.id), Of(init, l.id), l.event);
      }
    } else {
      hide Step, Enabled, Run, Legal;
    }
  }

  /** Whatever the counts were to begin with: in every state that any interleaving
      reaches, a node's count has grown by the pass's own lock at most, and the file lock
      of a shared surface is held exactly while the count is positive. */
  lemma LocksInEveryReachableState(nodes: Nodes, ls: seq<Label>, id: Id)
    requires id in nodes && Balanced(nodes[id]) && AllPossible(nodes, ls)
    ensures id in RunAll(nodes, ls)
    ensures var n, r := nodes[id], RunAll(nodes, ls)[id];
            && r.lockCount - Held(r) == n.lockCount - Held(n)
            && (r.readLocked <==> n.shared && r.lockCount > 0)
  {
    hide Run, Legal, Step, Enabled, Held;
    Projection(nodes, ls, id);
    RunKeepsBalance(nodes[id], SlotOf(id), Of(ls, id));
  }

  /** In every state that any interleaving reaches, every node is as it should be. In
      particular equal ages mean that every drawing has been merged exactly when fewer
      than 2^32 were made since the age was stored, and unless the server empties the list
      of a shared surface, every merge so far was given the rectangles of all the drawings
      that it covers, and the list still holds those of all others. */
  lemma EveryReachableState(nodes: Nodes, ls: seq<Label>, id: Id)
    requires id in nodes && NodeOk(nodes[id]) && AllPossible(nodes, ls)
    ensures id in RunAll(nodes, ls)
    ensures var n, r := nodes[id], RunAll(nodes, ls)[id];
            && NodeOk(r)
            && (r.changes == Age(r.drawn) ==> (r.upTo == r.drawn <==> r.drawn < r.seen + AGES))
            && (ListOk(n) && !Racy(n, SlotOf(id)) ==> r.missed == 0 && r.drawn <= r.upTo + r.listed)
  {
    hide Run, Legal, Age, Step, Enabled, Racy;
    Projection(nodes, ls, id);
    RunKeepsNode(nodes[id], SlotOf(id), Of(ls, id));
    MatchingAgeMeansMerged(nodes[id], SlotOf(id), Of(ls, id));
    if ListOk(nodes[id]) && !Racy(nodes[id], SlotOf(id)) {
      RunKeepsList(nodes[id], SlotOf(id), Of(ls, id));
    }
  }

  /** Under any interleaving, the rectangles missed so far and those to be missed by the
      next merge are those of the drawings between an unlock and its reset. */
  lemma LossesInEveryReachableState(nodes: Nodes, ls: seq<Label>, id: Id)
    requires id in nodes && NodeOk(nodes[id]) && LossOk(nodes[id]) && AllPossible(nodes, ls)
    ensures id in RunAll(nodes, ls)
    ensures var n, r := nodes[id], RunAll(nodes, ls)[id];
            r.missed + Lost(r) == n.missed + Lost(n) + Losses(n, SlotOf(id), Of(ls, id))
  {
    hide Run, Legal, Step, Enabled, Losses, Lost;
    Projection(nodes, ls, id);
    LossesAreConserved(nodes[id], SlotOf(id), Of(ls, id));
  }

  // ---------- what a pass prescribes ----------

  function PopupIds(k: nat): (ids: seq<Id>)
    ensures |ids| == k
  {
    seq(k, i requires 0 <= i => PopupNode(i))
  }

  /** The visible ones among the first `k` windows. */
  function VisibleIds(layer: Layer, k: nat): seq<Id>
    requires k <= |layer.windows|
  {
    if k == 0 then []
    else
      var w := layer.windows[k - 1];
      if w.visible then VisibleIds(layer, k - 1) + [WindowNode(layer.name, w.slot)] else VisibleIds(layer, k - 1)
  }

  predicate IsTopmost(scene: Scene, layer: Layer) {
    layer.name == scene.topmost.name
  }

  function MenuIds(scene: Scene, layer: Layer): seq<Id> {
    if IsTopmost(scene, layer) then PopupIds(scene.popups) else []
  }

  function WallpaperIds(scene: Scene, layer: Layer): seq<Id> {
    if IsTopmost(scene, layer) && scene.screen then [WallpaperNode] else []
  }

  function NodesOf(scene: Scene, layer: Layer): seq<Id> {
    MenuIds(scene, layer) + VisibleIds(layer, |layer.windows|) + WallpaperIds(scene, layer)
  }

  /** All nodes of all layers are known. */
  predicate Covers(scene: Scene, nodes: Nodes) {
    forall layer, id :: layer in scene.layers && id in NodesOf(scene, layer) ==> id in nodes
  }

  function LockTests(ids: seq<Id>): seq<Label> {
    if ids == [] then []
    else var id := ids[|ids| - 1]; LockTests(ids[..|ids| - 1]) + [On(id, Lock), On(id, Test)]
  }

  function Unlocks(ids: seq<Id>): seq<Label> {
    if ids == [] then []
    else Unlocks(ids[..|ids| - 1]) + [On(ids[|ids| - 1], Unlock)]
  }

  /** `dirty` is what the compositor's `reset_dirty_region` answers. */
  function LayerActs(scene: Scene, layer: Layer, dirty: bool): seq<Label> {
    var ids := NodesOf(scene, layer);
    [Reset(layer.name)] + if dirty then LockTests(ids) + [Refresh(layer.name)] + Unlocks(ids) else []
  }

  type Answers = nat -> bool

  function OtherActs(scene: Scene, dirty: Answers, k: nat): seq<Label>
    requires k <= |scene.layers|
  {
    if k == 0 then []
    else
      var l := scene.layers[k - 1];
      if IsTopmost(scene, l) then OtherActs(scene, dirty, k - 1)
      else OtherActs(scene, dirty, k - 1) + LayerActs(scene, l, dirty(l.name))
  }

  function PassActs(scene: Scene, dirty: Answers): seq<Label> {
    LayerActs(scene, scene.topmost, dirty(scene.topmost.name)) + OtherActs(scene, dirty, |scene.layers|)
  }

  predicate Prescribes(l: Label) {
    l.On? ==> l.event.Lock? || l.event.Test? || l.event.Unlock?
  }

  /** A run without the clients and without the resets, which depend on the state. */
  function Acts(ls: seq<Label>): seq<Label> {
    if ls == [] then []
    else if Prescribes(ls[|ls| - 1]) then Acts(ls[..|ls| - 1]) + [ls[|ls| - 1]]
    else Acts(ls[..|ls| - 1])
  }

  lemma {:induction false} ActsConcat(a: seq<Label>, b: seq<Label>)
    ensures Acts(a + b) == Acts(a) + Acts(b)
  {
    if b == [] {
      assert a + b == a;
    } else {
      ActsConcat(a, b[..|b| - 1]);
      assert (a + b)[..|a + b| - 1] == a + b[..|b| - 1];
    }
  }

  lemma {:induction false} OfConcat(a: seq<Label>, b: seq<Label>, id: Id)
    ensures Of(a + b, id) == Of(a, id) + Of(b, id)
  {
    if b == [] {
      assert a + b == a;
    } else {
      OfConcat(a, b[..|b| - 1], id);
      assert (a + b)[..|a + b| - 1] == a + b[..|b| - 1];
    }
  }

  lemma OneMoreAct(ls: seq<Label>, l: Label)
    ensures Acts(ls + [l]) == if Prescribes(l) then Acts(ls) + [l] else Acts(ls)
  {
    assert (ls + [l])[..|ls + [l]| - 1] == ls;
  }

  lemma {:induction false} LabelInOf(ls: seq<Label>, l: Label)
    requires l in ls && l.On?
    ensures l.event in Of(ls, l.id)
  {
    if l != ls[|ls| - 1] {
      LabelInOf(ls[..|ls| - 1], l);
    }
  }

  lemma PrescribedOne(es: seq<Event>, e: Event)
    ensures Prescribed(es + [e]) == if e.Lock? || e.Test? || e.Unlock? then Prescribed(es) + [e] else Prescribed(es)
  {
    assert (es + [e])[..|es + [e]| - 1] == es;
  }

  lemma OfOne(ls: seq<Label>, l: Label, id: Id)
    ensures Of(ls + [l], id) == if l.On? && l.id == id then Of(ls, id) + [l.event] else Of(ls, id)
  {
    assert (ls + [l])[..|ls + [l]| - 1] == ls;
  }

  lemma {:induction false} PrescribedIsOfActs(ls: seq<Label>, id: Id)
    ensures Prescribed(Of(ls, id)) == Of(Acts(ls), id)
  {
    if ls != [] {
      hide Prescribed;
      var init, l := ls[..|ls| - 1], ls[|ls| - 1];
      PrescribedIsOfActs(init, id);
      OfOne(Acts(init), l, id);
      if l.On? && l.id == id {
        PrescribedOne(Of(init, id), l.event);
      }
    }
  }

  // ---------- a pass handles each node once ----------

  predicate Distinct<T(==)>(s: seq<T>) {
    forall i, j :: 0 <= i < j < |s| ==> s[i] != s[j]
  }

  lemma Joined<T>(a: seq<T>, b: seq<T>)
    requires Distinct(a) && Distinct(b) && forall x :: x in a ==> x !in b
    ensures Distinct(a + b) && forall x :: x in a + b <==> x in a || x in b
  {
    forall i, j | 0 <= i < j < |a + b| ensures (a + b)[i] != (a + b)[j] {
      if i < |a| <= j {
        assert a[i] in a && b[j - |a|] in b;
      }
    }
  }

  lemma AtMostOne<T>(x: T)
    ensures Distinct<T>([]) && Distinct([x])
  {}

  lemma {:induction false} VisibleFacts(layer: Layer, k: nat)
    requires k <= |layer.windows| && DistinctSlots(layer.windows)
    ensures Distinct(VisibleIds(layer, k))
    ensures forall id :: id in VisibleIds(layer, k) <==>
              id.WindowNode? && id.layer == layer.name && Window(id.index, true) in layer.windows[..k]
  {
    if k != 0 {
      VisibleFacts(layer, k - 1);
      var w := layer.windows[k - 1];
      assert layer.windows[..k] == layer.windows[..k - 1] + [w];
    }
  }

  /** Which nodes a layer has, and that no node is among them twice. */
  lemma NodesOfFacts(scene: Scene, layer: Layer)
    requires DistinctSlots(layer.windows)
    ensures Distinct(NodesOf(scene, layer))
    ensures forall id :: id in NodesOf(scene, layer) <==> Shows(scene, layer, id)
  {
    hide VisibleIds, PopupIds, Distinct;
    VisibleFacts(layer, |layer.windows|);
    assert layer.windows[..|layer.windows|] == layer.windows;
    PopupFacts(scene.popups);
    AtMostOne(WallpaperNode);
    Joined(MenuIds(scene, layer), VisibleIds(layer, |layer.windows|));
    Joined(MenuIds(scene, layer) + VisibleIds(layer, |layer.windows|), WallpaperIds(scene, layer));
  }

  lemma PopupFacts(k: nat)
    ensures Distinct(PopupIds(k))
    ensures forall id :: id in PopupIds(k) <==> id.PopupNode? && id.index < k
  {
    forall i: nat | i < k ensures PopupNode(i) in PopupIds(k) {
      assert PopupIds(k)[i] == PopupNode(i);
    }
  }

  predicate Shows(scene: Scene, layer: Layer, id: Id) {
    match id
    case PopupNode(i) => IsTopmost(scene, layer) && i < scene.popups
    case WindowNode(name, slot) => name == layer.name && Window(slot, true) in layer.windows
    case WallpaperNode => IsTopmost(scene, layer) && scene.screen
  }

  lemma {:induction false} OfLockTests(ids: seq<Id>, id: Id)
    requires Distinct(ids)
    ensures Of(LockTests(ids), id) == if id in ids then [Lock, Test] else []
    ensures Of(Unlocks(ids), id) == if id in ids then [Unlock] else []
  {
    if ids != [] {
      hide Of;
      var init, last := ids[..|ids| - 1], ids[|ids| - 1];
      OfLockTests(init, id);
      OfOne(LockTests(init), On(last, Lock), id);
      OfOne(LockTests(init) + [On(last, Lock)], On(last, Test), id);
      OfOne(Unlocks(init), On(last, Unlock), id);
      LastOf(ids, id);
    }
  }

  lemma LastOf(ids: seq<Id>, id: Id)
    requires ids != [] && Distinct(ids)
    ensures var init, last := ids[..|ids| - 1], ids[|ids| - 1];
            && Distinct(init) && last !in init && (id in ids <==> id == last || id in init)
            && LockTests(ids) == LockTests(init) + [On(last, Lock)] + [On(last, Test)]
            && Unlocks(ids) == Unlocks(init) + [On(last, Unlock)]
  {
    assert ids == ids[..|ids| - 1] + [ids[|ids| - 1]];
  }

  lemma OfLayer(scene: Scene, layer: Layer, dirty: bool, id: Id)
    requires DistinctSlots(layer.windows)
    ensures Of(LayerActs(scene, layer, dirty), id) == if dirty && Shows(scene, layer, id) then ONE_PASS else []
  {
    hide Of, NodesOf, LockTests, Unlocks, Shows;
    var ids := NodesOf(scene, layer);
    NodesOfFacts(scene, layer);
    OfLockTests(ids, id);
    OfNothing(id);
    OfOne([], Reset(layer.name), id);
    OfOne(LockTests(ids), Refresh(layer.name), id);
    OfConcat(LockTests(ids) + [Refresh(layer.name)], Unlocks(ids), id);
    OfConcat([Reset(layer.name)], LockTests(ids) + [Refresh(layer.name)] + Unlocks(ids), id);
    assert [] + [Reset(layer.name)] == [Reset(layer.name)];
    assert [Reset(layer.name)] + [] == [Reset(layer.name)];
  }

  lemma OfNothing(id: Id)
    ensures Of([], id) == []
  {}

  /** The layer at an index is dirty and shows the node. */
  predicate ShownAt(scene: Scene, dirty: Answers, i: nat, id: Id)
    requires i < |scene.layers|
  {
    dirty(scene.layers[i].name) && Shows(scene, scene.layers[i], id)
  }

  lemma {:induction false} OfOthers(scene: Scene, dirty: Answers, k: nat, id: Id)
    requires WellFormed(scene) && k <= |scene.layers|
    ensures Of(OtherActs(scene, dirty, k), id)
         == if exists i :: 0 <= i < k && !IsTopmost(scene, scene.layers[i]) && ShownAt(scene, dirty, i, id)
            then ONE_PASS else []
  {
    if k == 0 {
      OfNothing(id);
    } else {
      hide Of, LayerActs;
      var l := scene.layers[k - 1];
      OfOthers(scene, dirty, k - 1, id);
      if IsTopmost(scene, l) {
        assert OtherActs(scene, dirty, k) == OtherActs(scene, dirty, k - 1);
      } else {
        OfLayer(scene, l, dirty(l.name), id);
        OfConcat(OtherActs(scene, dirty, k - 1), LayerActs(scene, l, dirty(l.name)), id);
        if ShownAt(scene, dirty, k - 1, id) {
          assert forall i :: 0 <= i < k - 1 && !IsTopmost(scene, scene.layers[i]) ==> !ShownAt(scene, dirty, i, id);
        }
      }
    }
  }

  /** The node is shown by a layer of the list whose dirty region is to be refreshed. */
  predicate Composited(scene: Scene, dirty: Answers, id: Id) {
    exists i :: 0 <= i < |scene.layers| && ShownAt(scene, dirty, i, id)
  }

  /** A pass locks, tests and unlocks each composited node once, and no other node. */
  lemma OfPass(scene: Scene, dirty: Answers, id: Id)
    requires WellFormed(scene)
    ensures Of(PassActs(scene, dirty), id) == if Composited(scene, dirty, id) then ONE_PASS else []
  {
    hide Of, LayerActs, OtherActs;
    OfLayer(scene, scene.topmost, dirty(scene.topmost.name), id);
    OfOthers(scene, dirty, |scene.layers|, id);
    OfConcat(LayerActs(scene, scene.topmost, dirty(scene.topmost.name)), OtherActs(scene, dirty, |scene.layers|), id);
    var t :| 0 <= t < |scene.layers| && scene.layers[t] == scene.topmost;
    assert ShownAt(scene, dirty, t, id) <==> dirty(scene.topmost.name) && Shows(scene, scene.topmost, id);
    assert forall i :: 0 <= i < |scene.layers| && i != t ==> !IsTopmost(scene, scene.layers[i]);
  }

  /** What a pass does to a node. The lock count and the file lock are as before, and
      once a reset that is due has been made there is one acknowledgement for each merge.
      A node that is composited is tested once, with what `Covered` says; any other is not
      merged. Unless the server empties the list of a shared surface, no rectangle is
      missed. */
  predicate PassOutcome(composited: bool, slot: nat, n: Node, r: Node) {
    && (r.stage.Idle? || r.stage.Owing?)
    && r.lockCount == n.lockCount && r.readLocked == n.readLocked
    && (r.stage.Idle? ==> r.merges - n.merges == r.acks - n.acks)
    && (composited ==> Covered(n, r))
    && (!composited ==> r.merges == n.merges && r.upTo == n.upTo && r.missed == n.missed)
    && (ListOk(n) && !Racy(n, slot) ==> ListOk(r))
  }

  /** A pass under any interleaving with clients. */
  lemma PassUnderInterleaving(scene: Scene, dirty: Answers, nodes: Nodes, ls: seq<Label>, id: Id)
    requires WellFormed(scene) && AllPossible(nodes, ls) && Acts(ls) == PassActs(scene, dirty)
    requires id in nodes && NodeOk(nodes[id]) && nodes[id].stage.Idle?
    ensures id in RunAll(nodes, ls)
    ensures PassOutcome(Composited(scene, dirty, id), SlotOf(id), nodes[id], RunAll(nodes, ls)[id])
  {
    hide Run, Legal, Step, Enabled, PassActs, Composited, Prescribed, Of, Acts, Racy, ListOk;
    var n, slot, es := nodes[id], SlotOf(id), Of(ls, id);
    Projection(nodes, ls, id);
    PrescribedIsOfActs(ls, id);
    OfPass(scene, dirty, id);
    PassOverNode(n, slot, es);
    if ListOk(n) && !Racy(n, slot) {
      RunKeepsList(n, slot, es);
    }
  }

  /** Drawings from the stored age to the test that the wrap-around hides. */
  predicate Hidden(n: Node, r: Node) {
    r.tested > n.seen && (r.tested - n.seen) % AGES == 0
  }

  /** A pass over a composited node merges every drawing made before its test exactly if
      their number since the stored age is not a positive multiple of 2^32. Every
      rectangle of these drawings reaches a merge exactly if, besides, the list had lost
      none of them before the pass. */
  lemma PassMergesEveryDrawingIff(scene: Scene, dirty: Answers, nodes: Nodes, ls: seq<Label>, id: Id)
    requires WellFormed(scene) && AllPossible(nodes, ls) && Acts(ls) == PassActs(scene, dirty)
    requires id in nodes && NodeOk(nodes[id]) && nodes[id].stage.Idle? && Composited(scene, dirty, id)
    ensures id in RunAll(nodes, ls)
    ensures var n, r := nodes[id], RunAll(nodes, ls)[id];
            && n.drawn <= r.tested <= r.drawn
            && (r.upTo == r.tested <==> !Hidden(n, r))
            && (r.upTo == r.tested && r.missed == n.missed <==> !Hidden(n, r) && Lost(n) == 0)
            && (ListOk(n) ==> Lost(n) == 0)
  {
    hide PassActs, Composited, Acts, AllPossible, RunAll, WellFormed, Age;
    PassUnderInterleaving(scene, dirty, nodes, ls, id);
  }

  lemma {:induction false} RunConcat(nodes: Nodes, a: seq<Label>, b: seq<Label>)
    ensures RunAll(nodes, a + b) == RunAll(RunAll(nodes, a), b)
    ensures AllPossible(nodes, a + b) <==> AllPossible(nodes, a) && AllPossible(RunAll(nodes, a), b)
  {
    hide Perform, Possible;
    if b == [] {
      assert a + b == a;
    } else {
      RunConcat(nodes, a, b[..|b| - 1]);
      assert (a + b)[..|a + b| - 1] == a + b[..|b| - 1];
    }
  }

  // ---------- each layer once, the topmost first ----------

  /** The layers in the order in which their dirty regions are reset. */
  function Resets(ls: seq<Label>): seq<nat> {
    if ls == [] then []
    else if ls[|ls| - 1].Reset? then Resets(ls[..|ls| - 1]) + [ls[|ls| - 1].layer]
    else Resets(ls[..|ls| - 1])
  }

  lemma {:induction false} ResetsConcat(a: seq<Label>, b: seq<Label>)
    ensures Resets(a + b) == Resets(a) + Resets(b)
  {
    if b == [] {
      assert a + b == a;
    } else {
      ResetsConcat(a, b[..|b| - 1]);
      assert (a + b)[..|a + b| - 1] == a + b[..|b| - 1];
    }
  }

  lemma {:induction false} OnlyReset(ls: seq<Label>)
    requires forall l :: l in ls ==> !l.Reset?
    ensures Resets(ls) == []
  {
    if ls != [] {
      OnlyReset(ls[..|ls| - 1]);
    }
  }

  lemma {:induction false} NoResetsIn(ids: seq<Id>)
    ensures forall l :: l in LockTests(ids) || l in Unlocks(ids) ==> !l.Reset?
  {
    if ids != [] {
      NoResetsIn(ids[..|ids| - 1]);
    }
  }

  lemma ResetOfLayer(scene: Scene, layer: Layer, dirty: bool)
    ensures Resets(LayerActs(scene, layer, dirty)) == [layer.name]
  {
    hide NodesOf, LockTests, Unlocks;
    var ids := NodesOf(scene, layer);
    var rest := if dirty then LockTests(ids) + [Refresh(layer.name)] + Unlocks(ids) else [];
    NoResetsIn(ids);
    OnlyReset(rest);
    ResetsConcat([Reset(layer.name)], rest);
    assert [Reset(layer.name)][..0] == [];
  }

  function Names(scene: Scene, k: nat): (r: seq<nat>)
    requires k <= |scene.layers|
    ensures |r| == k && forall i :: 0 <= i < k ==> r[i] == scene.layers[i].name
  {
    if k == 0 then [] else Names(scene, k - 1) + [scene.layers[k - 1].name]
  }

  lemma {:induction false} ResetsOfOthers(scene: Scene, dirty: Answers, k: nat)
    requires WellFormed(scene) && k <= |scene.layers|
    ensures var r := Resets(OtherActs(scene, dirty, k));
            && Distinct(r)
            && (forall name :: name in r <==> name in Names(scene, k) && name != scene.topmost.name)
  {
    if k != 0 {
      hide LayerActs, Resets, Distinct;
      var l, before := scene.layers[k - 1], OtherActs(scene, dirty, k - 1);
      ResetsOfOthers(scene, dirty, k - 1);
      if !IsTopmost(scene, l) {
        ResetOfLayer(scene, l, dirty(l.name));
        ResetsConcat(before, LayerActs(scene, l, dirty(l.name)));
        AtMostOne(l.name);
        Joined(Resets(before), [l.name]);
      }
    } else {
      hide Distinct;
      AtMostOne(scene.topmost.name);
    }
  }

  /** A pass asks each layer of the list once for its dirty region, the topmost first. */
  lemma EachLayerOnce(scene: Scene, dirty: Answers)
    requires WellFormed(scene)
    ensures var r := Resets(PassActs(scene, dirty));
            && r != [] && r[0] == scene.topmost.name
            && Distinct(r)
            && (forall name :: name in r <==> name in Names(scene, |scene.layers|))
  {
    hide LayerActs, OtherActs, Resets, Distinct;
    var t, others := scene.topmost, OtherActs(scene, dirty, |scene.layers|);
    ResetOfLayer(scene, t, dirty(t.name));
    ResetsOfOthers(scene, dirty, |scene.layers|);
    ResetsConcat(LayerActs(scene, t, dirty(t.name)), others);
    AtMostOne(t.name);
    Joined([t.name], Resets(others));
  }
}
