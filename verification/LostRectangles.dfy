/** When passes over a scene can lose rectangles for good. */
module LostRectangles {
  import opened DirtySurface
  import opened CompositePass

  // ---------- inserting the steps of a client into a pass ----------

  function OnAll(id: Id, es: seq<Event>): seq<Label> {
    if es == [] then [] else OnAll(id, es[..|es| - 1]) + [On(id, es[|es| - 1])]
  }

  /** The run with more steps of a node behind each of its unlocks. */
  function Inject(ls: seq<Label>, id: Id, extra: seq<Event>): seq<Label> {
    if ls == [] then []
    else
      var init, l := Inject(ls[..|ls| - 1], id, extra), ls[|ls| - 1];
      if l == On(id, Unlock) then init + [l] + OnAll(id, extra) else init + [l]
  }

  function InjectEvents(es: seq<Event>, extra: seq<Event>): seq<Event> {
    if es == [] then []
    else
      var init, e := InjectEvents(es[..|es| - 1], extra), es[|es| - 1];
      if e.Unlock? then init + [e] + extra else init + [e]
  }

  /** Steps that a pass does not prescribe. */
  predicate Extra(es: seq<Event>) {
    forall i :: 0 <= i < |es| ==> !es[i].Lock? && !es[i].Test? && !es[i].Unlock?
  }

  lemma {:induction false} OnAllFacts(id: Id, es: seq<Event>, other: Id)
    requires Extra(es)
    ensures Of(OnAll(id, es), other) == if other == id then es else []
    ensures Acts(OnAll(id, es)) == []
    ensures forall l :: l in OnAll(id, es) ==> l.On? && l.id == id
  {
    hide Of, Acts;
    if es != [] {
      var init, last := es[..|es| - 1], es[|es| - 1];
      OnAllFacts(id, init, other);
      OfOne(OnAll(id, init), On(id, last), other);
      OneMoreAct(OnAll(id, init), On(id, last));
      assert init + [last] == es;
    } else {
      NoActs();
      OfNothing(other);
    }
  }

  lemma OneMoreEvent(es: seq<Event>, e: Event, extra: seq<Event>)
    ensures InjectEvents(es + [e], extra)
         == if e.Unlock? then InjectEvents(es, extra) + [e] + extra else InjectEvents(es, extra) + [e]
  {
    assert (es + [e])[..|es + [e]| - 1] == es;
  }

  /** What is prescribed stays the same. */
  lemma {:induction false} InjectedActs(ls: seq<Label>, id: Id, extra: seq<Event>)
    requires Extra(extra)
    ensures Acts(Inject(ls, id, extra)) == Acts(ls)
  {
    if ls != [] {
      hide OnAll, Prescribes;
      var init, l := ls[..|ls| - 1], ls[|ls| - 1];
      var before := Inject(init, id, extra);
      InjectedActs(init, id, extra);
      OneMoreAct(before, l);
      if l == On(id, Unlock) {
        OnAllFacts(id, extra, id);
        ActsConcat(before + [l], OnAll(id, extra));
      }
    }
  }

  lemma {:induction false} InjectedOf(ls: seq<Label>, id: Id, extra: seq<Event>, other: Id)
    requires Extra(extra)
    ensures Of(Inject(ls, id, extra), other) == if other == id then InjectEvents(Of(ls, id), extra) else Of(ls, other)
  {
    if ls != [] {
      hide OnAll, InjectEvents, Extra;
      var init, l := ls[..|ls| - 1], ls[|ls| - 1];
      var before := Inject(init, id, extra);
      InjectedOf(init, id, extra, other);
      OfOne(before, l, other);
      if l.On? { OneMoreEvent(Of(init, id), l.event, extra); }
      if l == On(id, Unlock) {
        OnAllFacts(id, extra, other);
        OfConcat(before + [l], OnAll(id, extra), other);
        assert Of(before + [l], other) + [] == Of(before + [l], other);
      }
    }
  }

  lemma {:induction false} InjectedLabels(ls: seq<Label>, id: Id, extra: seq<Event>)
    requires Extra(extra)
    ensures forall l :: l in Inject(ls, id, extra) ==> l in ls || (l.On? && l.id == id)
  {
    if ls != [] {
      hide OnAll, Extra;
      InjectedLabels(ls[..|ls| - 1], id, extra);
      OnAllFacts(id, extra, id);
    }
  }

  // ---------- two passes ----------

  /** A drawing, a pass in which the client draws between the unlock and the reset, and
      one more pass. */
  function Race(scene: Scene, dirty: Answers, id: Id): seq<Label> {
    [On(id, Draw)] + Inject(PassActs(scene, dirty), id, [Draw, Ack]) + PassActs(scene, dirty)
  }

  predicate Misses(nodes: Nodes, ls: seq<Label>, id: Id) {
    id in RunAll(nodes, ls) && RunAll(nodes, ls)[id].missed > 0
  }

  lemma {:induction false} PassIsPrescribed(ls: seq<Label>)
    requires forall l :: l in ls ==> Prescribes(l)
    ensures Acts(ls) == ls
  {
    if ls != [] {
      assert ls[|ls| - 1] in ls;
      PassIsPrescribed(ls[..|ls| - 1]);
    }
  }

  lemma {:induction false} ListActs(ids: seq<Id>)
    ensures forall l :: l in LockTests(ids) || l in Unlocks(ids) ==> Prescribes(l)
  {
    if ids != [] {
      ListActs(ids[..|ids| - 1]);
    }
  }

  lemma LayerIsPrescribed(scene: Scene, layer: Layer, dirty: bool)
    ensures forall l :: l in LayerActs(scene, layer, dirty) ==> Prescribes(l)
  {
    hide NodesOf, LockTests, Unlocks;
    ListActs(NodesOf(scene, layer));
  }

  lemma {:induction false} OthersArePrescribed(scene: Scene, dirty: Answers, k: nat)
    requires k <= |scene.layers|
    ensures forall l :: l in OtherActs(scene, dirty, k) ==> Prescribes(l)
  {
    if k != 0 {
      hide LayerActs, Prescribes;
      OthersArePrescribed(scene, dirty, k - 1);
      LayerIsPrescribed(scene, scene.layers[k - 1], dirty(scene.layers[k - 1].name));
    }
  }

  lemma ActsOfPass(scene: Scene, dirty: Answers)
    ensures Acts(PassActs(scene, dirty)) == PassActs(scene, dirty)
  {
    hide LayerActs, OtherActs, Prescribes, Acts;
    LayerIsPrescribed(scene, scene.topmost, dirty(scene.topmost.name));
    OthersArePrescribed(scene, dirty, |scene.layers|);
    PassIsPrescribed(PassActs(scene, dirty));
  }

  lemma PassIsKnown(scene: Scene, dirty: Answers, nodes: Nodes, l: Label)
    requires WellFormed(scene) && Covers(scene, nodes) && l in PassActs(scene, dirty) && l.On?
    ensures l.id in nodes
  {
    hide PassActs, NodesOf, Of, Shows;
    LabelInOf(PassActs(scene, dirty), l);
    OfPass(scene, dirty, l.id);
    var i :| 0 <= i < |scene.layers| && ShownAt(scene, dirty, i, l.id);
    NodesOfFacts(scene, scene.layers[i]);
  }

  lemma ActsOfRace(scene: Scene, dirty: Answers, id: Id)
    ensures Acts(Race(scene, dirty, id)) == PassActs(scene, dirty) + PassActs(scene, dirty)
  {
    hide PassActs, Acts, Inject;
    var first := Inject(PassActs(scene, dirty), id, [Draw, Ack]);
    ActsOfPass(scene, dirty);
    InjectedActs(PassActs(scene, dirty), id, [Draw, Ack]);
    OneMoreAct([], On(id, Draw));
    NoActs();
    assert [] + [On(id, Draw)] == [On(id, Draw)];
    ActsConcat([On(id, Draw)], first);
    ActsConcat([On(id, Draw)] + first, PassActs(scene, dirty));
  }

  lemma NoActs()
    ensures Acts([]) == []
  {}

  lemma InjectedPass()
    ensures InjectEvents(ONE_PASS, [Draw, Ack]) == [Lock, Test, Unlock, Draw, Ack]
    ensures InjectEvents([], [Draw, Ack]) == []
  {
    OneMoreEvent([], Lock, [Draw, Ack]);
    OneMoreEvent([Lock], Test, [Draw, Ack]);
    OneMoreEvent([Lock, Test], Unlock, [Draw, Ack]);
    assert [] + [Lock] == [Lock] && [Lock] + [Test] == [Lock, Test] && [Lock, Test] + [Unlock] == ONE_PASS;
  }

  lemma OfRace(scene: Scene, dirty: Answers, id: Id, other: Id)
    requires WellFormed(scene) && Composited(scene, dirty, id)
    ensures other == id ==> Of(Race(scene, dirty, id), other) == RACE
    ensures other != id ==> Of(Race(scene, dirty, id), other) == if Composited(scene, dirty, other) then ONE_PASS + ONE_PASS else []
  {
    hide PassActs, Of, Inject, Composited, InjectEvents, WellFormed, Step, Run, Legal;
    var first := Inject(PassActs(scene, dirty), id, [Draw, Ack]);
    OfPass(scene, dirty, other);
    InjectedOf(PassActs(scene, dirty), id, [Draw, Ack], other);
    InjectedPass();
    OfNothing(other);
    OfOne([], On(id, Draw), other);
    assert [] + [On(id, Draw)] == [On(id, Draw)];
    OfConcat([On(id, Draw)], first, other);
    OfConcat([On(id, Draw)] + first, PassActs(scene, dirty), other);
  }

  /** The race is possible, and costs a rectangle. */
  lemma RaceMisses(scene: Scene, dirty: Answers, nodes: Nodes, id: Id)
    requires WellFormed(scene) && Covers(scene, nodes) && Composited(scene, dirty, id) && id in nodes
    requires forall other :: other in nodes ==> Fresh(nodes[other])
    requires Racy(nodes[id], SlotOf(id))
    ensures AllPossible(nodes, Race(scene, dirty, id)) && Misses(nodes, Race(scene, dirty, id), id)
  {
    hide PassActs, Of, Inject, Composited, WellFormed, Covers, Fresh, Racy, Run, Legal, AllPossible, RunAll;
    var ls := Race(scene, dirty, id);
    forall other | other in nodes ensures Legal(nodes[other], SlotOf(other), Of(ls, other)) {
      OfRace(scene, dirty, id, other);
      if other == id {
        RacyCanMiss(nodes[id], SlotOf(id));
      } else {
        QuietPasses(nodes[other], SlotOf(other));
      }
    }
    forall l | l in ls && l.On? ensures l.id in nodes {
      InjectedLabels(PassActs(scene, dirty), id, [Draw, Ack]);
      if l.id != id {
        PassIsKnown(scene, dirty, nodes, l);
      }
    }
    LegalTogether(nodes, ls);
    Projection(nodes, ls, id);
    OfRace(scene, dirty, id, id);
    RacyCanMiss(nodes[id], SlotOf(id));
  }

  /** Windows have positive slots. */
  lemma SlotZero(scene: Scene, dirty: Answers, id: Id)
    requires WellFormed(scene) && Composited(scene, dirty, id)
    ensures SlotOf(id) == 0 <==> id == PopupNode(0) || id == WallpaperNode
  {
    var i :| 0 <= i < |scene.layers| && ShownAt(scene, dirty, i, id);
    if id.WindowNode? {
      var ws := scene.layers[i].windows;
      var k :| 0 <= k < |ws| && ws[k] == Window(id.index, true);
    }
  }

  /** Two passes over a fresh scene can end up with a rectangle of a composited node that
      no merge was given exactly if its surface is shared and the server resets its list. */
  lemma PassesMissIffRacy(scene: Scene, dirty: Answers, nodes: Nodes, id: Id)
    requires WellFormed(scene) && Covers(scene, nodes) && Composited(scene, dirty, id) && id in nodes
    requires forall other :: other in nodes ==> Fresh(nodes[other])
    ensures (exists ls :: AllPossible(nodes, ls) && Acts(ls) == PassActs(scene, dirty) + PassActs(scene, dirty) && Misses(nodes, ls, id))
       <==> nodes[id].shared && (nodes[id].cli == 0 || id == PopupNode(0) || id == WallpaperNode)
  {
    hide PassActs, Composited, WellFormed, Covers, AllPossible, RunAll, Acts, Race;
    SlotZero(scene, dirty, id);
    if Racy(nodes[id], SlotOf(id)) {
      RaceMisses(scene, dirty, nodes, id);
      ActsOfRace(scene, dirty, id);
    } else {
      forall ls | AllPossible(nodes, ls) ensures !Misses(nodes, ls, id) {
        EveryReachableState(nodes, ls, id);
      }
    }
  }
}
