/** The server's side of a composition pass. */
module CompositeServer {
  import opened DirtySurface
  import opened CompositePass
  import opened PassOrder

  class Server {
    const scene: Scene
    var nodes: Nodes
    ghost const start: Nodes
    ghost var log: seq<Label>

    /** The nodes are what the logged steps, each of them possible, make of `start`. */
    ghost predicate Valid()
      reads this
    {
      && WellFormed(scene) && Covers(scene, nodes)
      && AllPossible(start, log) && nodes == RunAll(start, log)
    }

    /** The given nodes have been locked and tested, the others are idle. */
    ghost predicate Staged(ids: seq<Id>)
      reads this
    {
      forall id :: id in nodes ==> nodes[id].stage == if id in ids then Tested else Idle
    }

    constructor (scene: Scene, nodes: Nodes)
      requires WellFormed(scene) && Covers(scene, nodes)
      ensures Valid() && this.scene == scene && this.nodes == nodes && start == nodes && log == []
    {
      this.scene, this.nodes := scene, nodes;
      start, log := nodes, [];
    }

    /** Clients draw, and drop what is acknowledged, any number of times. */
    method Interfere()
      requires Valid()
      modifies this`nodes, this`log
      ensures Valid() && nodes.Keys == old(nodes).Keys
      ensures old(log) <= log && Acts(log) == old(Acts(log))
      ensures forall id :: id in nodes ==> nodes[id].stage == old(nodes)[id].stage
    {
      hide WellFormed, NodesOf, Acts, AllPossible, RunAll;
      var steps: int := *;
      while steps > 0
        invariant Valid() && nodes.Keys == old(nodes).Keys
        invariant old(log) <= log && Acts(log) == old(Acts(log))
        invariant forall id :: id in nodes ==> nodes[id].stage == old(nodes)[id].stage
      {
        var id: Id, clears: bool := *, *;
        var e := if clears then Clear else Draw;
        if id in nodes && Enabled(nodes[id], SlotOf(id), e) {
          Logged(start, log, On(id, e));
          nodes := nodes[id := Step(nodes[id], SlotOf(id), e)];
          log := log + [On(id, e)];
        }
        steps := steps - 1;
      }
    }

    method LockZnodeSurface(id: Id)
      requires Valid() && id in nodes && nodes[id].stage.Idle?
      modifies this`nodes, this`log
      ensures Valid() && log == old(log) + [On(id, Lock)] && Acts(log) == Acts(old(log)) + [On(id, Lock)]
      ensures nodes == old(nodes)[id := LockNode(old(nodes)[id])] && nodes[id].stage.Locked?
    {
      hide WellFormed, NodesOf, Acts, AllPossible, RunAll;
      Logged(start, log, On(id, Lock));
      var node := nodes[id];
      if node.lockCount == 0 {
        if node.shared {
          node := node.(readLocked := true);
        }
        node := node.(dirtyAge := Age(node.drawn), nrDirtyRcs := node.listed);
      }
      node := node.(lockCount := node.lockCount + 1, stage := Locked);
      nodes := nodes[id := node];
      log := log + [On(id, Lock)];
    }

    /** Compares the ages and calls the merge operation if they differ. */
    method MergeIfDirty(id: Id)
      requires Valid() && id in nodes && nodes[id].stage.Locked?
      modifies this`nodes, this`log
      ensures Valid() && log == old(log) + [On(id, Test)] && Acts(log) == Acts(old(log)) + [On(id, Test)]
      ensures nodes == old(nodes)[id := TestNode(old(nodes)[id])] && nodes[id].stage.Tested?
    {
      hide WellFormed, NodesOf, Acts, AllPossible, RunAll;
      Logged(start, log, On(id, Test));
      var node := nodes[id];
      var changesInDc := Age(node.drawn);
      if changesInDc != node.changes {
        node := node.(merges := node.merges + 1, missed := node.missed + Unlisted(node), upTo := node.drawn);
      }
      nodes := nodes[id := node.(stage := Tested, tested := node.drawn)];
      log := log + [On(id, Test)];
    }

    method UnlockZnodeSurface(id: Id) returns (needReset: bool)
      requires Valid() && id in nodes && nodes[id].stage.Tested?
      modifies this`nodes, this`log
      ensures Valid() && log == old(log) + [On(id, Unlock)] && Acts(log) == Acts(old(log)) + [On(id, Unlock)]
      ensures nodes == old(nodes)[id := UnlockNode(old(nodes)[id])]
      ensures nodes[id].stage == if needReset then Owing else Idle
    {
      hide WellFormed, NodesOf, Acts, AllPossible, RunAll;
      Logged(start, log, On(id, Unlock));
      needReset := false;
      var node := nodes[id];
      if node.lockCount > 0 {
        node := node.(lockCount := node.lockCount - 1);
        if node.lockCount == 0 {
          if node.changes != Age(node.drawn) {
            node := node.(changes := Age(node.drawn), seen := node.drawn);
            needReset := true;
          }
          if node.shared {
            node := node.(readLocked := false);
          }
          node := node.(dirtyAge := 0, nrDirtyRcs := 0);
        }
      }
      nodes := nodes[id := node.(stage := if needReset then Owing else Idle)];
      log := log + [On(id, Unlock)];
    }

    method ResetZnodeSurfaceDirty(id: Id)
      requires Valid() && id in nodes && nodes[id].stage.Owing?
      modifies this`nodes, this`log
      ensures Valid() && log == old(log) + [On(id, Ack)] && Acts(log) == Acts(old(log))
      ensures nodes == old(nodes)[id := AckNode(old(nodes)[id], SlotOf(id))] && nodes[id].stage.Idle?
    {
      hide WellFormed, NodesOf, Acts, AllPossible, RunAll;
      Logged(start, log, On(id, Ack));
      var node := nodes[id];
      if node.cli == 0 || SlotOf(id) == 0 {
        node := node.(listed := 0);
      } else if node.hwnd != 0 {
        node := node.(notices := node.notices + [node.changes]);
      }
      nodes := nodes[id := node.(acks := node.acks + 1, stage := Idle)];
      log := log + [On(id, Ack)];
    }

    /** Takes the next node of `ids` into the pass. */
    method Take(id: Id, ghost ids: seq<Id>, ghost k: nat, ghost before: seq<Label>)
      requires Valid() && id in nodes && k < |ids| && ids[k] == id && Distinct(ids)
      requires Staged(ids[..k]) && Acts(log) == before + LockTests(ids[..k])
      modifies this`nodes, this`log
      ensures Valid() && nodes.Keys == old(nodes).Keys && old(log) <= log
      ensures Staged(ids[..k + 1]) && Acts(log) == before + LockTests(ids[..k + 1])
    {
      hide WellFormed, Covers, Acts, AllPossible, RunAll, LockTests, Unlocks, Distinct;
      NextId(ids, k);
      Interfere();
      LockAndTest(id);
    }

    /** Unlocks a node and acknowledges it if it was merged. */
    method UnlockAndReset(id: Id)
      requires Valid() && id in nodes && nodes[id].stage.Tested?
      modifies this`nodes, this`log
      ensures Valid() && nodes.Keys == old(nodes).Keys && old(log) <= log
      ensures Acts(log) == Acts(old(log)) + [On(id, Unlock)]
      ensures nodes[id].stage.Idle?
      ensures forall other :: other in nodes && other != id ==> nodes[other].stage == old(nodes)[other].stage
    {
      hide WellFormed, Covers, Acts, AllPossible, RunAll, UnlockNode, AckNode;
      var needReset := UnlockZnodeSurface(id);
      Interfere();
      if needReset {
        ResetZnodeSurfaceDirty(id);
      }
    }

    /** Locks a node and merges it if its age has changed. */
    method LockAndTest(id: Id)
      requires Valid() && id in nodes && nodes[id].stage.Idle?
      modifies this`nodes, this`log
      ensures Valid() && nodes.Keys == old(nodes).Keys && old(log) <= log
      ensures Acts(log) == Acts(old(log)) + [On(id, Lock)] + [On(id, Test)]
      ensures nodes[id].stage.Tested?
      ensures forall other :: other in nodes && other != id ==> nodes[other].stage == old(nodes)[other].stage
    {
      hide WellFormed, Covers, Acts, AllPossible, RunAll, LockNode, TestNode;
      LockZnodeSurface(id);
      Interfere();
      MergeIfDirty(id);
    }

    /** Releases the next node of `ids` and acknowledges it if it was merged. */
    method Release(id: Id, ghost ids: seq<Id>, ghost k: nat, ghost before: seq<Label>)
      requires Valid() && id in nodes && k < |ids| && ids[k] == id && Distinct(ids)
      requires Staged(ids[k..]) && Acts(log) == before + Unlocks(ids[..k])
      modifies this`nodes, this`log
      ensures Valid() && nodes.Keys == old(nodes).Keys && old(log) <= log
      ensures Staged(ids[k + 1..]) && Acts(log) == before + Unlocks(ids[..k + 1])
    {
      hide WellFormed, Covers, Acts, AllPossible, RunAll, LockTests, Unlocks, Distinct;
      NextId(ids, k);
      Interfere();
      UnlockAndReset(id);
    }

    method LockMenus(layer: Layer, ghost ids: seq<Id>, ghost before: seq<Label>)
      requires Valid() && layer in scene.layers && ids == NodesOf(scene, layer)
      requires Staged([]) && Acts(log) == before
      modifies this`nodes, this`log
      ensures Valid() && nodes.Keys == old(nodes).Keys && old(log) <= log
      ensures var m := |MenuIds(scene, layer)|;
              m <= |ids| && Staged(ids[..m]) && Acts(log) == before + LockTests(ids[..m])
    {
      hide NodesOf, Acts, AllPossible, RunAll, LockTests, MenuIds, VisibleIds, WellFormed, Distinct, Covers;
      Known(scene, layer, nodes);
      Positions(scene, layer);
      NothingLocked(ids);
      if layer.name == scene.topmost.name && scene.popups > 0 {
        for i := 0 to scene.popups
          invariant Valid() && nodes.Keys == old(nodes).Keys && old(log) <= log
          invariant Staged(ids[..i]) && Acts(log) == before + LockTests(ids[..i])
        {
          Take(PopupNode(i), ids, i, before);
        }
      }
    }

    method LockWindows(layer: Layer, ghost ids: seq<Id>, ghost m: nat, ghost before: seq<Label>)
      requires Valid() && layer in scene.layers && ids == NodesOf(scene, layer)
      requires m <= |ids| && Embedded(layer, ids, m)
      requires Staged(ids[..m]) && Acts(log) == before + LockTests(ids[..m])
      modifies this`nodes, this`log
      ensures Valid() && nodes.Keys == old(nodes).Keys && old(log) <= log
      ensures var k := m + |VisibleIds(layer, |layer.windows|)|;
              k <= |ids| && Staged(ids[..k]) && Acts(log) == before + LockTests(ids[..k])
    {
      hide NodesOf, Acts, AllPossible, RunAll, LockTests, VisibleIds, WellFormed, Distinct, Covers;
      Known(scene, layer, nodes);
      NoWindows(layer);
      for i := 0 to |layer.windows|
        invariant Valid() && nodes.Keys == old(nodes).Keys && old(log) <= log
        invariant m + |VisibleIds(layer, i)| <= |ids|
        invariant Staged(ids[..m + |VisibleIds(layer, i)|])
        invariant Acts(log) == before + LockTests(ids[..m + |VisibleIds(layer, i)|])
      {
        WindowPosition(layer, ids, m, i);
        if layer.windows[i].visible {
          Take(WindowNode(layer.name, layer.windows[i].slot), ids, m + |VisibleIds(layer, i)|, before);
        }
      }
    }

    method LockLayer(layer: Layer, ghost before: seq<Label>)
      requires Valid() && layer in scene.layers && Staged([]) && Acts(log) == before
      modifies this`nodes, this`log
      ensures Valid() && nodes.Keys == old(nodes).Keys && old(log) <= log
      ensures Staged(NodesOf(scene, layer)) && Acts(log) == before + LockTests(NodesOf(scene, layer))
    {
      hide NodesOf, Acts, AllPossible, RunAll, LockTests, MenuIds, VisibleIds, WellFormed, Distinct, Covers;
      ghost var ids := NodesOf(scene, layer);
      Known(scene, layer, nodes);
      Positions(scene, layer);
      LockMenus(layer, ids, before);
      LockWindows(layer, ids, |MenuIds(scene, layer)|, before);
      if layer.name == scene.topmost.name {
        if scene.screen {
          Take(WallpaperNode, ids, |ids| - 1, before);
        }
      }
      assert ids[..|ids|] == ids;
    }

    method UnlockMenus(layer: Layer, ghost ids: seq<Id>, ghost before: seq<Label>)
      requires Valid() && layer in scene.layers && ids == NodesOf(scene, layer)
      requires Staged(ids) && Acts(log) == before
      modifies this`nodes, this`log
      ensures Valid() && nodes.Keys == old(nodes).Keys && old(log) <= log
      ensures var m := |MenuIds(scene, layer)|;
              m <= |ids| && Staged(ids[m..]) && Acts(log) == before + Unlocks(ids[..m])
    {
      hide NodesOf, Acts, AllPossible, RunAll, Unlocks, MenuIds, VisibleIds, WellFormed, Distinct, Covers;
      Known(scene, layer, nodes);
      Positions(scene, layer);
      NothingLocked(ids);
      if layer.name == scene.topmost.name && scene.popups > 0 {
        for i := 0 to scene.popups
          invariant Valid() && nodes.Keys == old(nodes).Keys && old(log) <= log
          invariant Staged(ids[i..]) && Acts(log) == before + Unlocks(ids[..i])
        {
          Release(PopupNode(i), ids, i, before);
        }
      }
    }

    method UnlockWindows(layer: Layer, ghost ids: seq<Id>, ghost m: nat, ghost before: seq<Label>)
      requires Valid() && layer in scene.layers && ids == NodesOf(scene, layer)
      requires m <= |ids| && Embedded(layer, ids, m)
      requires Staged(ids[m..]) && Acts(log) == before + Unlocks(ids[..m])
      modifies this`nodes, this`log
      ensures Valid() && nodes.Keys == old(nodes).Keys && old(log) <= log
      ensures var k := m + |VisibleIds(layer, |layer.windows|)|;
              k <= |ids| && Staged(ids[k..]) && Acts(log) == before + Unlocks(ids[..k])
    {
      hide NodesOf, Acts, AllPossible, RunAll, Unlocks, VisibleIds, WellFormed, Distinct, Covers;
      Known(scene, layer, nodes);
      NoWindows(layer);
      for i := 0 to |layer.windows|
        invariant Valid() && nodes.Keys == old(nodes).Keys && old(log) <= log
        invariant m + |VisibleIds(layer, i)| <= |ids|
        invariant Staged(ids[m + |VisibleIds(layer, i)|..])
        invariant Acts(log) == before + Unlocks(ids[..m + |VisibleIds(layer, i)|])
      {
        WindowPosition(layer, ids, m, i);
        if layer.windows[i].visible {
          Release(WindowNode(layer.name, layer.windows[i].slot), ids, m + |VisibleIds(layer, i)|, before);
        }
      }
    }

    method UnlockLayer(layer: Layer, ghost before: seq<Label>)
      requires Valid() && layer in scene.layers && Staged(NodesOf(scene, layer)) && Acts(log) == before
      modifies this`nodes, this`log
      ensures Valid() && nodes.Keys == old(nodes).Keys && old(log) <= log
      ensures Staged([]) && Acts(log) == before + Unlocks(NodesOf(scene, layer))
    {
      hide NodesOf, Acts, AllPossible, RunAll, Unlocks, MenuIds, VisibleIds, WellFormed, Distinct, Covers, Embedded;
      hide LockTests, DistinctSlots;
      ghost var ids := NodesOf(scene, layer);
      Known(scene, layer, nodes);
      Positions(scene, layer);
      UnlockMenus(layer, ids, before);
      UnlockWindows(layer, ids, |MenuIds(scene, layer)|, before);
      UnlockWallpaper(layer, ids, |MenuIds(scene, layer)| + |VisibleIds(layer, |layer.windows|)|, before);
    }

    method UnlockWallpaper(layer: Layer, ghost ids: seq<Id>, ghost k: nat, ghost before: seq<Label>)
      requires Valid() && layer in scene.layers && ids == NodesOf(scene, layer) && k <= |ids|
      requires |ids| == k + if IsTopmost(scene, layer) && scene.screen then 1 else 0
      requires Staged(ids[k..]) && Acts(log) == before + Unlocks(ids[..k])
      modifies this`nodes, this`log
      ensures Valid() && nodes.Keys == old(nodes).Keys && old(log) <= log
      ensures Staged([]) && Acts(log) == before + Unlocks(ids)
    {
      hide NodesOf, Acts, AllPossible, RunAll, Unlocks, WellFormed, Distinct, Covers;
      Known(scene, layer, nodes);
      Positions(scene, layer);
      AllOf(ids);
      if layer.name == scene.topmost.name {
        if scene.screen {
          Release(WallpaperNode, ids, k, before);
        }
      }
    }

    /** `dirty` is the compositor's answer when it is asked to reset its dirty region. */
    method CompositeLayer(layer: Layer, dirty: bool)
      requires Valid() && layer in scene.layers && Staged([])
      modifies this`nodes, this`log
      ensures Valid() && nodes.Keys == old(nodes).Keys && old(log) <= log
      ensures Staged([]) && Acts(log) == Acts(old(log)) + LayerActs(scene, layer, dirty)
    {
      hide WellFormed, NodesOf, Acts, AllPossible, RunAll;
      Logged(start, log, Reset(layer.name));
      log := log + [Reset(layer.name)];
      if !dirty {
        return;
      }
      ghost var ids := NodesOf(scene, layer);
      LockLayer(layer, Acts(log));
      Logged(start, log, Refresh(layer.name));
      log := log + [Refresh(layer.name)];
      UnlockLayer(layer, Acts(log));
      ghost var acts := LockTests(ids) + [Refresh(layer.name)] + Unlocks(ids);
      assert Acts(log) == Acts(old(log)) + ([Reset(layer.name)] + acts);
    }

    /** One pass. The run it appends is an interleaving of what `PassActs` prescribes with
        steps of the clients and the resets that are due. */
    method CompositeDirtyZnodes(dirty: Answers)
      requires Valid() && Staged([])
      modifies this`nodes, this`log
      ensures Valid() && nodes.Keys == old(nodes).Keys && old(log) <= log
      ensures Staged([]) && Acts(log) == Acts(old(log)) + PassActs(scene, dirty)
      ensures forall id :: id in nodes && NodeOk(old(nodes)[id]) ==>
                PassOutcome(Composited(scene, dirty, id), SlotOf(id), old(nodes)[id], nodes[id])
      ensures forall id :: id in nodes && Balanced(old(nodes)[id]) ==>
                nodes[id].lockCount == old(nodes)[id].lockCount && nodes[id].readLocked == old(nodes)[id].readLocked
      ensures forall layer :: layer in scene.layers ==>
                InOrder(scene, layer, dirty(layer.name), log[|old(log)|..])
    {
      hide NodesOf, Acts, AllPossible, RunAll, LayerActs, NodeOk, PassOutcome, Composited, Balanced, InOrder;
      ghost var was := nodes;
      CompositeLayer(scene.topmost, dirty(scene.topmost.name));
      ghost var first := LayerActs(scene, scene.topmost, dirty(scene.topmost.name));
      for i := 0 to |scene.layers|
        invariant Valid() && nodes.Keys == old(nodes).Keys && old(log) <= log
        invariant Staged([]) && Acts(log) == Acts(old(log)) + (first + OtherActs(scene, dirty, i))
      {
        if scene.layers[i].name != scene.topmost.name {
          CompositeLayer(scene.layers[i], dirty(scene.layers[i].name));
        }
      }
      forall id | id in nodes && NodeOk(was[id])
        ensures PassOutcome(Composited(scene, dirty, id), SlotOf(id), was[id], nodes[id])
      {
        PassOfLog(scene, dirty, start, old(log), log, id);
      }
      forall id | id in nodes && Balanced(was[id])
        ensures nodes[id].lockCount == was[id].lockCount && nodes[id].readLocked == was[id].readLocked
      {
        LocksOfLog(start, old(log), log, id);
      }
      forall layer | layer in scene.layers
        ensures InOrder(scene, layer, dirty(layer.name), log[|old(log)|..])
      {
        OrderOfLog(scene, dirty, old(log), log, layer);
      }
    }
  }

  lemma Known(scene: Scene, layer: Layer, nodes: Nodes)
    requires WellFormed(scene) && Covers(scene, nodes) && layer in scene.layers
    ensures Distinct(NodesOf(scene, layer))
    ensures forall id :: id in NodesOf(scene, layer) ==> id in nodes.Keys
  {
    hide NodesOf;
    NodesOfFacts(scene, layer);
  }

  /** A pass appended to a log. */
  lemma PassOfLog(scene: Scene, dirty: Answers, start: Nodes, a: seq<Label>, log: seq<Label>, id: Id)
    requires WellFormed(scene) && a <= log && AllPossible(start, log)
    requires Acts(log) == Acts(a) + PassActs(scene, dirty)
    requires id in RunAll(start, a) && NodeOk(RunAll(start, a)[id]) && RunAll(start, a)[id].stage.Idle?
    ensures id in RunAll(start, log)
    ensures PassOutcome(Composited(scene, dirty, id), SlotOf(id), RunAll(start, a)[id], RunAll(start, log)[id])
  {
    hide WellFormed, PassActs, NodeOk, PassOutcome, Composited, Acts, RunAll, AllPossible;
    var ls := log[|a|..];
    assert log == a + ls;
    RunConcat(start, a, ls);
    ActsConcat(a, ls);
    assert Acts(ls) == Acts(log)[|Acts(a)|..];
    PassUnderInterleaving(scene, dirty, RunAll(start, a), ls, id);
  }

  lemma OrderOfLog(scene: Scene, dirty: Answers, a: seq<Label>, log: seq<Label>, layer: Layer)
    requires WellFormed(scene) && a <= log && Acts(log) == Acts(a) + PassActs(scene, dirty) && layer in scene.layers
    ensures InOrder(scene, layer, dirty(layer.name), log[|a|..])
  {
    hide WellFormed, PassActs, Acts, InOrder;
    var ls := log[|a|..];
    assert log == a + ls;
    ActsConcat(a, ls);
    assert Acts(ls) == Acts(log)[|Acts(a)|..];
    var i :| 0 <= i < |scene.layers| && scene.layers[i] == layer;
    PassInOrder(scene, dirty, ls, i);
  }

  lemma LocksOfLog(start: Nodes, a: seq<Label>, log: seq<Label>, id: Id)
    requires a <= log && AllPossible(start, log)
    requires id in RunAll(start, a) && Balanced(RunAll(start, a)[id]) && RunAll(start, a)[id].stage.Idle?
    ensures id in RunAll(start, log)
    ensures var n, r := RunAll(start, a)[id], RunAll(start, log)[id];
            r.stage.Idle? ==> r.lockCount == n.lockCount && r.readLocked == n.readLocked
  {
    hide RunAll, AllPossible;
    var ls := log[|a|..];
    assert log == a + ls;
    RunConcat(start, a, ls);
    LocksInEveryReachableState(RunAll(start, a), ls, id);
  }

  lemma NothingLocked(ids: seq<Id>)
    ensures ids[..0] == [] && ids[0..] == ids && LockTests([]) == [] && Unlocks([]) == []
  {}

  lemma AllOf(ids: seq<Id>)
    ensures ids[..|ids|] == ids && ids[|ids|..] == []
  {}

  lemma NoWindows(layer: Layer)
    ensures VisibleIds(layer, 0) == []
  {}

  /** The visible windows of the layer are among the nodes, from index `m` on. */
  predicate Embedded(layer: Layer, ids: seq<Id>, m: nat) {
    var vs := VisibleIds(layer, |layer.windows|);
    m + |vs| <= |ids| && ids[m..m + |vs|] == vs
  }

  /** Where the nodes of a layer are. */
  lemma Positions(scene: Scene, layer: Layer)
    ensures var ids, menus := NodesOf(scene, layer), MenuIds(scene, layer);
            && |menus| == (if IsTopmost(scene, layer) then scene.popups else 0)
            && |menus| <= |ids| && ids[..|menus|] == menus
            && (IsTopmost(scene, layer) ==> forall i :: 0 <= i < scene.popups ==> ids[i] == PopupNode(i))
            && Embedded(layer, ids, |menus|)
            && |ids| == |menus| + |VisibleIds(layer, |layer.windows|)|
                        + (if IsTopmost(scene, layer) && scene.screen then 1 else 0)
            && (IsTopmost(scene, layer) && scene.screen ==> ids[|ids| - 1] == WallpaperNode)
  {
    hide VisibleIds;
  }

  lemma {:induction false} VisibleIsPrefix(layer: Layer, i: nat, k: nat)
    requires i <= k <= |layer.windows|
    ensures VisibleIds(layer, i) <= VisibleIds(layer, k)
    decreases k
  {
    if i < k {
      VisibleIsPrefix(layer, i, k - 1);
    }
  }

  lemma WindowPosition(layer: Layer, ids: seq<Id>, m: nat, i: nat)
    requires i < |layer.windows| && Embedded(layer, ids, m)
    ensures var k, w := m + |VisibleIds(layer, i)|, layer.windows[i];
            && k <= |ids| && |VisibleIds(layer, i + 1)| == |VisibleIds(layer, i)| + (if w.visible then 1 else 0)
            && (w.visible ==> k < |ids| && ids[k] == WindowNode(layer.name, w.slot))
  {
    VisibleIsPrefix(layer, i + 1, |layer.windows|);
    var vs, k := VisibleIds(layer, |layer.windows|), |VisibleIds(layer, i)|;
    if layer.windows[i].visible {
      assert vs[k] == VisibleIds(layer, i + 1)[k] && ids[m..m + |vs|][k] == ids[m + k];
    }
  }

  lemma Logged(start: Nodes, log: seq<Label>, l: Label)
    ensures AllPossible(start, log + [l]) == (AllPossible(start, log) && Possible(RunAll(start, log), l))
    ensures RunAll(start, log + [l]) == Perform(RunAll(start, log), l)
    ensures Acts(log + [l]) == if Prescribes(l) then Acts(log) + [l] else Acts(log)
  {
    hide Possible, Perform;
    assert (log + [l])[..|log + [l]| - 1] == log;
  }

  lemma NextId(ids: seq<Id>, k: nat)
    requires k < |ids| && Distinct(ids)
    ensures ids[k] !in ids[..k] && ids[k] !in ids[k + 1..]
    ensures forall id :: id in ids[..k + 1] <==> id in ids[..k] || id == ids[k]
    ensures forall id :: id in ids[k..] <==> id in ids[k + 1..] || id == ids[k]
    ensures LockTests(ids[..k + 1]) == LockTests(ids[..k]) + [On(ids[k], Lock)] + [On(ids[k], Test)]
    ensures Unlocks(ids[..k + 1]) == Unlocks(ids[..k]) + [On(ids[k], Unlock)]
  {
    assert ids[..k + 1][..k] == ids[..k];
    assert ids[..k + 1] == ids[..k] + [ids[k]];
    assert ids[k..] == [ids[k]] + ids[k + 1..];
  }
}
