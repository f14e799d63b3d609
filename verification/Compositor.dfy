/** The compositor manager: a registry of eight slots, the selection of the current
    compositor, and the private data it keeps with window nodes. */
module Compositor {
  import opened Bytes

  const MAX_NR_COMPOSITORS := 8
  const LEN_COMPOSITOR_NAME := 15
  const FALLBACK := "fallback"

  /** A table of operations. Two of them may be missing. */
  datatype Ops = Ops(id: nat, purgesPpp: bool, purgesWin: bool)

  type Ctxt = nat

  datatype Slot = Slot(name: string, ops: Option<Ops>)

  /** Private data that a compositor stored with a node. */
  datatype Data = Data(owner: Ops, ctxt: Ctxt, value: nat)

  datatype Node = Node(visible: bool, priv: Option<Data>)

  /** The pop-up menus of the topmost layer, and the window nodes of every layer, in
      the order in which they are walked. */
  datatype Desktop = Desktop(popups: seq<Node>, layers: seq<seq<Node>>)

  /** A node list: the pop-ups, or the windows of a layer. */
  datatype List = Popups | Layer(index: nat)

  datatype Place = Place(list: List, index: nat)

  /** Calls into compositors. */
  datatype Event =
    | Initialized(ops: Ops, ctxt: Ctxt)
    | Purged(ops: Ops, ctxt: Ctxt, place: Place, data: Data)
    | Terminated(ops: Ops, ctxt: Ctxt)
    | Shown(ops: Ops, ctxt: Ctxt, place: Place)
    | Refreshed(ops: Ops, ctxt: Ctxt)

  /** What `on_showing` stores with a node, if anything. */
  type Answers = Place -> Option<nat>

  // ---------- private data ----------

  function Purges(ops: Ops, list: List): bool {
    if list.Popups? then ops.purgesPpp else ops.purgesWin
  }

  function PurgeNode(n: Node, has: bool): Node {
    if n.priv.Some? && has then n.(priv := None) else n
  }

  function ShowNode(n: Node, ops: Ops, ctxt: Ctxt, stored: Option<nat>): Node {
    if n.visible && stored.Some? then n.(priv := Some(Data(ops, ctxt, stored.value))) else n
  }

  /** The first `k` nodes purged. */
  function PurgeList(nodes: seq<Node>, has: bool, k: nat): (r: seq<Node>)
    ensures |r| == |nodes|
  {
    seq(|nodes|, i requires 0 <= i < |nodes| => if i < k then PurgeNode(nodes[i], has) else nodes[i])
  }

  /** The first `k` nodes shown. */
  function ShowList(nodes: seq<Node>, ops: Ops, ctxt: Ctxt, list: List, answers: Answers, k: nat): (r: seq<Node>)
    ensures |r| == |nodes|
  {
    seq(|nodes|, i requires 0 <= i < |nodes| =>
      if i < k then ShowNode(nodes[i], ops, ctxt, answers(Place(list, i))) else nodes[i])
  }

  lemma PurgeNext(nodes: seq<Node>, has: bool, k: nat)
    requires k < |nodes|
    ensures PurgeList(nodes, has, k)[k] == nodes[k]
    ensures PurgeList(nodes, has, k + 1) == PurgeList(nodes, has, k)[k := PurgeNode(nodes[k], has)]
  {
    hide PurgeNode;
  }

  lemma ShowNext(nodes: seq<Node>, ops: Ops, ctxt: Ctxt, list: List, answers: Answers, k: nat)
    requires k < |nodes|
    ensures ShowList(nodes, ops, ctxt, list, answers, k)[k] == nodes[k]
    ensures ShowList(nodes, ops, ctxt, list, answers, k + 1)
         == ShowList(nodes, ops, ctxt, list, answers, k)[k := ShowNode(nodes[k], ops, ctxt, answers(Place(list, k)))]
  {
    hide ShowNode;
  }

  lemma NoNodeYet(nodes: seq<Node>, ops: Ops, ctxt: Ctxt, list: List, answers: Answers)
    ensures PurgeList(nodes, Purges(ops, list), 0) == nodes
    ensures ShowList(nodes, ops, ctxt, list, answers, 0) == nodes
  {}

  function PurgeLog(nodes: seq<Node>, ops: Ops, ctxt: Ctxt, list: List, k: nat): seq<Event>
    requires k <= |nodes|
  {
    if k == 0 then []
    else
      var n := nodes[k - 1];
      PurgeLog(nodes, ops, ctxt, list, k - 1)
      + if n.priv.Some? && Purges(ops, list) then [Purged(ops, ctxt, Place(list, k - 1), n.priv.value)] else []
  }

  function ShowLog(nodes: seq<Node>, ops: Ops, ctxt: Ctxt, list: List, k: nat): seq<Event>
    requires k <= |nodes|
  {
    if k == 0 then []
    else
      ShowLog(nodes, ops, ctxt, list, k - 1)
      + if nodes[k - 1].visible then [Shown(ops, ctxt, Place(list, k - 1))] else []
  }

  function PurgeLayers(layers: seq<seq<Node>>, has: bool, k: nat): (r: seq<seq<Node>>)
    ensures |r| == |layers|
  {
    seq(|layers|, l requires 0 <= l < |layers| => if l < k then PurgeList(layers[l], has, |layers[l]|) else layers[l])
  }

  function ShowLayers(layers: seq<seq<Node>>, ops: Ops, ctxt: Ctxt, answers: Answers, k: nat): (r: seq<seq<Node>>)
    ensures |r| == |layers|
  {
    seq(|layers|, l requires 0 <= l < |layers| =>
      if l < k then ShowList(layers[l], ops, ctxt, Layer(l), answers, |layers[l]|) else layers[l])
  }

  lemma PurgeNextLayer(layers: seq<seq<Node>>, has: bool, k: nat)
    requires k < |layers|
    ensures PurgeLayers(layers, has, k)[k] == layers[k]
    ensures PurgeLayers(layers, has, k + 1) == PurgeLayers(layers, has, k)[k := PurgeList(layers[k], has, |layers[k]|)]
  {
    hide PurgeList;
  }

  lemma ShowNextLayer(layers: seq<seq<Node>>, ops: Ops, ctxt: Ctxt, answers: Answers, k: nat)
    requires k < |layers|
    ensures ShowLayers(layers, ops, ctxt, answers, k)[k] == layers[k]
    ensures ShowLayers(layers, ops, ctxt, answers, k + 1)
         == ShowLayers(layers, ops, ctxt, answers, k)[k := ShowList(layers[k], ops, ctxt, Layer(k), answers, |layers[k]|)]
  {
    hide ShowList;
  }

  lemma NoLayerYet(layers: seq<seq<Node>>, ops: Ops, ctxt: Ctxt, answers: Answers)
    ensures PurgeLayers(layers, ops.purgesWin, 0) == layers
    ensures ShowLayers(layers, ops, ctxt, answers, 0) == layers
  {
    hide PurgeList, ShowList;
  }

  function PurgeLayersLog(layers: seq<seq<Node>>, ops: Ops, ctxt: Ctxt, k: nat): seq<Event>
    requires k <= |layers|
  {
    if k == 0 then []
    else PurgeLayersLog(layers, ops, ctxt, k - 1) + PurgeLog(layers[k - 1], ops, ctxt, Layer(k - 1), |layers[k - 1]|)
  }

  function ShowLayersLog(layers: seq<seq<Node>>, ops: Ops, ctxt: Ctxt, k: nat): seq<Event>
    requires k <= |layers|
  {
    if k == 0 then []
    else ShowLayersLog(layers, ops, ctxt, k - 1) + ShowLog(layers[k - 1], ops, ctxt, Layer(k - 1), |layers[k - 1]|)
  }

  function PurgeDesktop(d: Desktop, ops: Ops): Desktop {
    Desktop(PurgeList(d.popups, ops.purgesPpp, |d.popups|), PurgeLayers(d.layers, ops.purgesWin, |d.layers|))
  }

  function PurgeDesktopLog(d: Desktop, ops: Ops, ctxt: Ctxt): seq<Event> {
    PurgeLog(d.popups, ops, ctxt, Popups, |d.popups|) + PurgeLayersLog(d.layers, ops, ctxt, |d.layers|)
  }

  function ShowDesktop(d: Desktop, ops: Ops, ctxt: Ctxt, answers: Answers): Desktop {
    Desktop(ShowList(d.popups, ops, ctxt, Popups, answers, |d.popups|), ShowLayers(d.layers, ops, ctxt, answers, |d.layers|))
  }

  function ShowDesktopLog(d: Desktop, ops: Ops, ctxt: Ctxt): seq<Event> {
    ShowLog(d.popups, ops, ctxt, Popups, |d.popups|) + ShowLayersLog(d.layers, ops, ctxt, |d.layers|)
  }

  // ---------- the registry and the selection on values ----------

  datatype State = State(slots: seq<Slot>, ops: Option<Ops>, ctxt: Option<Ctxt>, desktop: Desktop, log: seq<Event>)

  predicate Blank(name: Option<string>) {
    name.None? || name.value == ""
  }

  /** The first slot with the name, or the number of slots. */
  function FindName(slots: seq<Slot>, name: string): (i: nat)
    ensures i <= |slots|
    ensures forall j :: 0 <= j < i ==> slots[j].name != name
    ensures i < |slots| ==> slots[i].name == name
  {
    if slots == [] || slots[0].name == name then 0
    else
      var i := FindName(slots[1..], name);
      assert forall j :: 1 <= j < i + 1 ==> slots[j] == slots[1..][j - 1];
      i + 1
  }

  function Lookup(slots: seq<Slot>, name: Option<string>): Option<Ops> {
    if Blank(name) then None
    else
      var i := FindName(slots, name.value);
      if i < |slots| then slots[i].ops else None
  }

  /** `strncpy` into a field of sixteen characters. */
  function Stored(name: string): string {
    if |name| <= LEN_COMPOSITOR_NAME then name else name[..LEN_COMPOSITOR_NAME]
  }

  function Register(s: State, name: Option<string>, ops: Option<Ops>): (State, bool) {
    if Blank(name) || ops.None? then (s, false)
    else
      var i := FindName(s.slots, "");
      if i < |s.slots| then (s.(slots := s.slots[i := Slot(Stored(name.value), ops)]), true) else (s, false)
  }

  function Unregister(s: State, name: Option<string>): (State, bool) {
    if Blank(name) || name.value == FALLBACK then (s, false)
    else
      var i := FindName(s.slots, name.value);
      if i < |s.slots| && s.ops != s.slots[i].ops then (s.(slots := s.slots[i := Slot("", None)]), true) else (s, false)
  }

  /** Makes `ops` current with its new context. */
  function Switch(s: State, ops: Ops, ctxt: Ctxt, answers: Answers): State
    requires s.ops.Some? ==> s.ctxt.Some?
  {
    var purged := if s.ops.Some? then PurgeDesktop(s.desktop, s.ops.value) else s.desktop;
    var leave := if s.ops.Some? then
      PurgeDesktopLog(s.desktop, s.ops.value, s.ctxt.value) + [Terminated(s.ops.value, s.ctxt.value)] else [];
    State(s.slots, Some(ops), Some(ctxt), ShowDesktop(purged, ops, ctxt, answers),
          s.log + [Initialized(ops, ctxt)] + leave + ShowDesktopLog(purged, ops, ctxt) + [Refreshed(ops, ctxt)])
  }

  /** `outcome` is what the compositor's `initialize` returns if it is called. */
  function Select(s: State, name: Option<string>, outcome: Option<Ctxt>, answers: Answers): State
    requires s.ops.Some? ==> s.ctxt.Some?
  {
    var ops := Lookup(s.slots, name);
    if ops.None? || ops == s.ops || outcome.None? then s
    else Switch(s, ops.value, outcome.value, answers)
  }

  /** What `ServerSelectCompositor` returns, given the state it leaves. */
  function Selected(before: State, name: Option<string>, after: State): Option<Ops> {
    if Blank(name) then before.ops
    else if Lookup(before.slots, name).None? then None
    else after.ops
  }

  // ---------- what callers see ----------

  /** The name is that of a slot, but not the fallback's nor the current compositor's. */
  ghost predicate MayLeave(s: State, name: Option<string>) {
    && name.Some? && name.value != "" && name.value != "fallback"
    && exists i :: FirstWith(s.slots, name.value, i) && s.slots[i].ops != s.ops
  }

  /** The first slot with the name. */
  ghost predicate FirstWith(slots: seq<Slot>, name: string, i: int) {
    0 <= i < |slots| && slots[i].name == name && forall j :: 0 <= j < i ==> slots[j].name != name
  }

  /** The name selects these operations. */
  ghost predicate Names(slots: seq<Slot>, name: Option<string>, o: Ops) {
    name.Some? && name.value != "" && exists i :: FirstWith(slots, name.value, i) && slots[i].ops == Some(o)
  }

  /** The name selects operations that are not current, and their initialisation succeeds. */
  ghost predicate Switches(s: State, name: Option<string>, outcome: Option<Ctxt>, o: Ops, c: Ctxt) {
    Names(s.slots, name, o) && s.ops != Some(o) && outcome == Some(c)
  }

  /** The new compositor is current, with its context. The calls start with its
      initialisation and end with its refresh. */
  ghost predicate Switched(s: State, r: State, o: Ops, c: Ctxt) {
    && r.ops == Some(o) && r.ctxt == Some(c) && r.slots == s.slots
    && s.log <= r.log && |r.log| >= |s.log| + 2
    && r.log[|s.log|] == Initialized(o, c) && r.log[|r.log| - 1] == Refreshed(o, c)
  }

  lemma NamesIsLookup(slots: seq<Slot>, name: Option<string>, o: Ops)
    ensures Names(slots, name, o) <==> Lookup(slots, name) == Some(o)
  {
    if !Blank(name) {
      var i := FindName(slots, name.value);
      if i < |slots| { assert FirstWith(slots, name.value, i); }
      forall k | FirstWith(slots, name.value, k) ensures k == i {
        FirstIsUnique(slots, name.value, k);
      }
    }
  }

  lemma SwitchedBySwitch(s: State, o: Ops, c: Ctxt, answers: Answers)
    requires s.ops.Some? ==> s.ctxt.Some?
    ensures Switched(s, Switch(s, o, c, answers), o, c)
  {
    hide PurgeDesktop, PurgeDesktopLog, ShowDesktop, ShowDesktopLog;
  }

  /** A selection switches when it can, and otherwise does nothing. */
  lemma SelectSwitchesOrNot(s: State, name: Option<string>, outcome: Option<Ctxt>, answers: Answers)
    requires s.ops.Some? ==> s.ctxt.Some?
    ensures forall o, c: Ctxt :: Switches(s, name, outcome, o, c) ==> Switched(s, Select(s, name, outcome, answers), o, c)
    ensures (forall o, c: Ctxt :: !Switches(s, name, outcome, o, c)) ==> Select(s, name, outcome, answers) == s
  {
    hide Switch, Lookup, Names, Switched;
    forall o ensures Names(s.slots, name, o) <==> Lookup(s.slots, name) == Some(o) {
      NamesIsLookup(s.slots, name, o);
    }
    forall o, c: Ctxt | Switches(s, name, outcome, o, c) ensures Switched(s, Select(s, name, outcome, answers), o, c) {
      SwitchedBySwitch(s, o, c, answers);
    }
    if Lookup(s.slots, name).Some? && outcome.Some? {
      assert Switches(s, name, outcome, Lookup(s.slots, name).value, outcome.value) <==> s.ops != Lookup(s.slots, name);
    }
  }

  /** What a selection returns. */
  lemma SelectedByFields(s: State, name: Option<string>, outcome: Option<Ctxt>, answers: Answers)
    requires s.ops.Some? ==> s.ctxt.Some?
    ensures var r, ops := Select(s, name, outcome, answers), Selected(s, name, Select(s, name, outcome, answers));
            && (name.None? || name.value == "" ==> ops == s.ops)
            && (forall o, c: Ctxt :: Switches(s, name, outcome, o, c) ==> ops == Some(o))
            && (forall o :: Names(s.slots, name, o) && (s.ops == Some(o) || outcome.None?) ==> ops == s.ops)
            && (name.Some? && name.value != "" && (forall o :: !Names(s.slots, name, o)) ==> ops == None)
  {
    hide Switch, FindName, Names;
    forall o ensures Names(s.slots, name, o) <==> Lookup(s.slots, name) == Some(o) {
      NamesIsLookup(s.slots, name, o);
    }
    SelectSwitchesOrNot(s, name, outcome, answers);
    hide Select;
  }

  // ---------- the manager ----------

  class Manager {
    const compositors: array<Slot>
    var currOps: Option<Ops>
    var currCtxt: Option<Ctxt>
    var desktop: Desktop
    ghost var log: seq<Event>

    ghost function View(): State
      reads this, compositors
    {
      State(compositors[..], currOps, currCtxt, desktop, log)
    }

    constructor (fallback: Ops, desktop: Desktop)
      ensures fresh(compositors)
      ensures View() == Initial(fallback, desktop)
    {
      compositors := new Slot[MAX_NR_COMPOSITORS](_ => Slot("", None));
      currOps, currCtxt := None, None;
      this.desktop := desktop;
      log := [];
      new;
      compositors[0] := Slot(FALLBACK, Some(fallback));
    }

    method FindSlot(name: string) returns (i: nat)
      ensures i == FindName(compositors[..], name)
    {
      i := 0;
      while i < compositors.Length && compositors[i].name != name
        invariant 0 <= i <= compositors.Length
        invariant forall j :: 0 <= j < i ==> compositors[j].name != name
      {
        i := i + 1;
      }
      FirstIsUnique(compositors[..], name, i);
    }

    method GetCompositorOps(name: Option<string>) returns (ops: Option<Ops>)
      ensures ops == Lookup(compositors[..], name)
      ensures forall o :: Names(compositors[..], name, o) <==> ops == Some(o)
    {
      forall o ensures Names(compositors[..], name, o) <==> Lookup(compositors[..], name) == Some(o) {
        NamesIsLookup(compositors[..], name, o);
      }
      hide Names;
      if name.None? || name.value == "" {
        return None;
      }
      var i := FindSlot(name.value);
      if i < compositors.Length {
        return compositors[i].ops;
      }
      return None;
    }

    method RegisterCompositor(name: Option<string>, ops: Option<Ops>) returns (done: bool)
      modifies compositors
      ensures (View(), done) == Register(old(View()), name, ops)
      ensures done <==> name.Some? && name.value != "" && ops.Some? && exists i :: FirstWith(old(compositors[..]), "", i)
      ensures forall i :: done && FirstWith(old(compositors[..]), "", i) ==>
        compositors[..] == old(compositors[..])[i := Slot(if |name.value| <= 15 then name.value else name.value[..15], ops)]
      ensures !done ==> compositors[..] == old(compositors[..])
    {
      FirstsOf(compositors[..], "");
      if name.None? || name.value == "" || ops.None? {
        return false;
      }
      var i := FindSlot("");
      if i < compositors.Length {
        assert FirstWith(compositors[..], "", i);
        compositors[i] := Slot(Stored(name.value), ops);
        return true;
      }
      return false;
    }

    method UnregisterCompositor(name: Option<string>) returns (done: bool)
      modifies compositors
      ensures (View(), done) == Unregister(old(View()), name)
      ensures done <==> MayLeave(old(View()), name)
      ensures forall i :: done && FirstWith(old(compositors[..]), name.value, i) ==>
        compositors[..] == old(compositors[..])[i := Slot("", None)]
      ensures !done ==> compositors[..] == old(compositors[..])
    {
      if name.Some? { FirstsOf(compositors[..], name.value); }
      if name.None? || name.value == "" || name.value == FALLBACK {
        return false;
      }
      var i := FindSlot(name.value);
      if i < compositors.Length {
        if currOps == compositors[i].ops {
          return false;
        }
        compositors[i] := Slot("", None);
        return true;
      }
      return false;
    }

    method PurgeAll(ops: Ops, ctxt: Ctxt)
      modifies this`desktop, this`log
      ensures desktop == PurgeDesktop(old(desktop), ops)
      ensures log == old(log) + PurgeDesktopLog(old(desktop), ops, ctxt)
    {
      hide PurgeList, PurgeLog, PurgeLayers;
      ghost var d := desktop;
      PurgePopups(ops, ctxt);
      NoLayerYet(d.layers, ops, ctxt, _ => None);
      for l := 0 to |desktop.layers|
        invariant desktop.popups == PurgeList(d.popups, ops.purgesPpp, |d.popups|)
        invariant desktop.layers == PurgeLayers(d.layers, ops.purgesWin, l)
        invariant log == old(log) + PurgeLog(d.popups, ops, ctxt, Popups, |d.popups|) + PurgeLayersLog(d.layers, ops, ctxt, l)
      {
        PurgeNextLayer(d.layers, ops.purgesWin, l);
        PurgeLayer(ops, ctxt, l);
      }
    }

    method PurgePopups(ops: Ops, ctxt: Ctxt)
      modifies this`desktop, this`log
      ensures desktop == old(desktop).(popups := PurgeList(old(desktop).popups, ops.purgesPpp, |old(desktop).popups|))
      ensures log == old(log) + PurgeLog(old(desktop).popups, ops, ctxt, Popups, |old(desktop).popups|)
    {
      hide PurgeList;
      ghost var nodes := desktop.popups;
      NoNodeYet(nodes, ops, ctxt, Popups, _ => None);
      for i := 0 to |desktop.popups|
        invariant desktop == old(desktop).(popups := PurgeList(nodes, ops.purgesPpp, i))
        invariant log == old(log) + PurgeLog(nodes, ops, ctxt, Popups, i)
      {
        PurgeNext(nodes, ops.purgesPpp, i);
        var n := desktop.popups[i];
        if n.priv.Some? && ops.purgesPpp {
          log := log + [Purged(ops, ctxt, Place(Popups, i), n.priv.value)];
          desktop := desktop.(popups := desktop.popups[i := n.(priv := None)]);
        }
      }
    }

    method PurgeLayer(ops: Ops, ctxt: Ctxt, l: nat)
      requires l < |desktop.layers|
      modifies this`desktop, this`log
      ensures var nodes := old(desktop).layers[l];
              && desktop == old(desktop).(layers := old(desktop).layers[l := PurgeList(nodes, ops.purgesWin, |nodes|)])
              && log == old(log) + PurgeLog(nodes, ops, ctxt, Layer(l), |nodes|)
    {
      hide PurgeList;
      ghost var nodes := desktop.layers[l];
      NoNodeYet(nodes, ops, ctxt, Layer(l), _ => None);
      assert desktop.layers == desktop.layers[l := nodes];
      for i := 0 to |desktop.layers[l]|
        invariant l < |desktop.layers|
        invariant desktop == old(desktop).(layers := old(desktop).layers[l := PurgeList(nodes, ops.purgesWin, i)])
        invariant log == old(log) + PurgeLog(nodes, ops, ctxt, Layer(l), i)
      {
        PurgeNext(nodes, ops.purgesWin, i);
        var n := desktop.layers[l][i];
        if n.priv.Some? && ops.purgesWin {
          log := log + [Purged(ops, ctxt, Place(Layer(l), i), n.priv.value)];
          desktop := desktop.(layers := desktop.layers[l := desktop.layers[l][i := n.(priv := None)]]);
        }
        assert desktop.layers[l] == PurgeList(nodes, ops.purgesWin, i + 1);
        assert desktop.layers == old(desktop).layers[l := PurgeList(nodes, ops.purgesWin, i + 1)];
      }
    }

    method RebuildAll(ops: Ops, ctxt: Ctxt, answers: Answers)
      modifies this`desktop, this`log
      ensures desktop == ShowDesktop(old(desktop), ops, ctxt, answers)
      ensures log == old(log) + ShowDesktopLog(old(desktop), ops, ctxt)
    {
      hide ShowList, ShowLog, ShowLayers;
      ghost var d := desktop;
      RebuildPopups(ops, ctxt, answers);
      NoLayerYet(d.layers, ops, ctxt, answers);
      for l := 0 to |desktop.layers|
        invariant desktop.popups == ShowList(d.popups, ops, ctxt, Popups, answers, |d.popups|)
        invariant desktop.layers == ShowLayers(d.layers, ops, ctxt, answers, l)
        invariant log == old(log) + ShowLog(d.popups, ops, ctxt, Popups, |d.popups|) + ShowLayersLog(d.layers, ops, ctxt, l)
      {
        ShowNextLayer(d.layers, ops, ctxt, answers, l);
        RebuildLayer(ops, ctxt, answers, l);
      }
    }

    method RebuildPopups(ops: Ops, ctxt: Ctxt, answers: Answers)
      modifies this`desktop, this`log
      ensures desktop == old(desktop).(popups := ShowList(old(desktop).popups, ops, ctxt, Popups, answers, |old(desktop).popups|))
      ensures log == old(log) + ShowLog(old(desktop).popups, ops, ctxt, Popups, |old(desktop).popups|)
    {
      hide ShowList;
      ghost var nodes := desktop.popups;
      NoNodeYet(nodes, ops, ctxt, Popups, answers);
      for i := 0 to |desktop.popups|
        invariant desktop == old(desktop).(popups := ShowList(nodes, ops, ctxt, Popups, answers, i))
        invariant log == old(log) + ShowLog(nodes, ops, ctxt, Popups, i)
      {
        ShowNext(nodes, ops, ctxt, Popups, answers, i);
        var n := desktop.popups[i];
        if n.visible {
          log := log + [Shown(ops, ctxt, Place(Popups, i))];
          desktop := desktop.(popups := desktop.popups[i := ShowNode(n, ops, ctxt, answers(Place(Popups, i)))]);
        }
      }
    }

    method RebuildLayer(ops: Ops, ctxt: Ctxt, answers: Answers, l: nat)
      requires l < |desktop.layers|
      modifies this`desktop, this`log
      ensures var nodes := old(desktop).layers[l];
              && desktop == old(desktop).(layers := old(desktop).layers[l := ShowList(nodes, ops, ctxt, Layer(l), answers, |nodes|)])
              && log == old(log) + ShowLog(nodes, ops, ctxt, Layer(l), |nodes|)
    {
      hide ShowList;
      ghost var nodes := desktop.layers[l];
      NoNodeYet(nodes, ops, ctxt, Layer(l), answers);
      assert desktop.layers == desktop.layers[l := nodes];
      for i := 0 to |desktop.layers[l]|
        invariant l < |desktop.layers|
        invariant desktop == old(desktop).(layers := old(desktop).layers[l := ShowList(nodes, ops, ctxt, Layer(l), answers, i)])
        invariant log == old(log) + ShowLog(nodes, ops, ctxt, Layer(l), i)
      {
        ShowNext(nodes, ops, ctxt, Layer(l), answers, i);
        var n := desktop.layers[l][i];
        if n.visible {
          log := log + [Shown(ops, ctxt, Place(Layer(l), i))];
          desktop := desktop.(layers := desktop.layers[l := desktop.layers[l][i := ShowNode(n, ops, ctxt, answers(Place(Layer(l), i)))]]);
        }
        assert desktop.layers[l] == ShowList(nodes, ops, ctxt, Layer(l), answers, i + 1);
        assert desktop.layers == old(desktop).layers[l := ShowList(nodes, ops, ctxt, Layer(l), answers, i + 1)];
      }
    }

    /** The old compositor purges its data and is terminated, the new one becomes current
        and sees the visible nodes. `s` is the state before its initialisation. */
    method SwitchTo(ops: Ops, ctxt: Ctxt, answers: Answers, ghost s: State)
      requires currOps.Some? ==> currCtxt.Some?
      requires View() == s.(log := s.log + [Initialized(ops, ctxt)])
      modifies this
      ensures View() == Switch(s, ops, ctxt, answers)
    {
      hide PurgeDesktop, PurgeDesktopLog, ShowDesktop, ShowDesktopLog;
      ghost var logged := log;
      if currOps.Some? {
        PurgeAll(currOps.value, currCtxt.value);
        log := log + [Terminated(currOps.value, currCtxt.value)];
        ghost var purges := PurgeDesktopLog(s.desktop, currOps.value, currCtxt.value);
        assert log == logged + (purges + [Terminated(currOps.value, currCtxt.value)]);
      }
      currOps, currCtxt := Some(ops), Some(ctxt);
      RebuildAll(ops, ctxt, answers);
      log := log + [Refreshed(ops, ctxt)];
    }

    method SelectCompositor(name: Option<string>, outcome: Option<Ctxt>, answers: Answers) returns (ops: Option<Ops>, ctxt: Option<Ctxt>)
      requires currOps.Some? ==> currCtxt.Some?
      modifies this
      ensures View() == Select(old(View()), name, outcome, answers)
      ensures ops == Selected(old(View()), name, View())
      ensures Blank(name) || ops.Some? ==> ctxt == currCtxt
      ensures forall o, c: Ctxt :: Switches(old(View()), name, outcome, o, c) ==>
        Switched(old(View()), View(), o, c) && ops == Some(o) && ctxt == Some(c)
      ensures (forall o, c: Ctxt :: !Switches(old(View()), name, outcome, o, c)) ==> View() == old(View())
      ensures name.None? || name.value == "" ==> ops == old(currOps) && ctxt == old(currCtxt)
      ensures forall o :: Names(old(compositors[..]), name, o) && (old(currOps) == Some(o) || outcome.None?) ==>
        ops == old(currOps) && ctxt == old(currCtxt)
      ensures name.Some? && name.value != "" && (forall o :: !Names(old(compositors[..]), name, o)) ==>
        ops == None && ctxt == None
    {
      ghost var s := View();
      SelectSwitchesOrNot(s, name, outcome, answers);
      SelectedByFields(s, name, outcome, answers);
      hide Switches, Switched, Switch, FindName, Names;
      if name.None? || name.value == "" {
        return currOps, currCtxt;
      }
      ops := GetCompositorOps(name);
      if ops.None? {
        return None, None;
      }
      if ops == currOps {
        return ops, currCtxt;
      }
      if outcome.Some? {
        log := log + [Initialized(ops.value, outcome.value)];
        SwitchTo(ops.value, outcome.value, answers, s);
      }
      return currOps, currCtxt;
    }
  }

  lemma FirstsOf(slots: seq<Slot>, name: string)
    ensures forall i :: FirstWith(slots, name, i) <==> i == FindName(slots, name) && i < |slots|
  {
    forall i | FirstWith(slots, name, i) ensures i == FindName(slots, name) {
      FirstIsUnique(slots, name, i);
    }
  }

  lemma FirstIsUnique(slots: seq<Slot>, name: string, i: nat)
    requires i <= |slots| && (forall j :: 0 <= j < i ==> slots[j].name != name)
    requires i < |slots| ==> slots[i].name == name
    ensures i == FindName(slots, name)
  {}

  function Initial(fallback: Ops, desktop: Desktop): State {
    State([Slot(FALLBACK, Some(fallback))] + seq(MAX_NR_COMPOSITORS - 1, _ => Slot("", None)), None, None, desktop, [])
  }
}
