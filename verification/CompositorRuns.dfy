/** What holds after any run of registrations, unregistrations and selections. */
module CompositorRuns {
  import opened Bytes
  import opened Compositor

  datatype Step =
    | DoRegister(rname: Option<string>, ops: Option<Ops>)
    | DoUnregister(uname: Option<string>)
    | DoSelect(sname: Option<string>, outcome: Option<Ctxt>, answers: Answers)
    | DoStore(place: Place, value: nat)
    | DoShow(shown: Place, visible: bool)
    | DoOpen(appeared: Place, atOnce: bool)
    | DoClose(closed: Place)

  function NodeAt(d: Desktop, p: Place): Option<Node> {
    match p.list
    case Popups => if p.index < |d.popups| then Some(d.popups[p.index]) else None
    case Layer(l) => if l < |d.layers| && p.index < |d.layers[l]| then Some(d.layers[l][p.index]) else None
  }

  function PutNode(d: Desktop, p: Place, n: Node): Desktop
    requires NodeAt(d, p).Some?
  {
    match p.list
    case Popups => d.(popups := d.popups[p.index := n])
    case Layer(l) => d.(layers := d.layers[l := d.layers[l][p.index := n]])
  }

  /** Between selections, the current compositor may store data with a node. */
  function Store(s: State, p: Place, value: nat): State
    requires s.ops.Some? ==> s.ctxt.Some?
  {
    var n := NodeAt(s.desktop, p);
    if s.ops.None? || n.None? then s
    else s.(desktop := PutNode(s.desktop, p, n.value.(priv := Some(Data(s.ops.value, s.ctxt.value, value)))))
  }

  function ListAt(d: Desktop, list: List): Option<seq<Node>> {
    match list
    case Popups => Some(d.popups)
    case Layer(l) => if l < |d.layers| then Some(d.layers[l]) else None
  }

  function PutList(d: Desktop, list: List, nodes: seq<Node>): Desktop
    requires ListAt(d, list).Some?
  {
    match list
    case Popups => d.(popups := nodes)
    case Layer(l) => d.(layers := d.layers[l := nodes])
  }

  /** A pop-up or window is shown or hidden. */
  function Show(s: State, p: Place, visible: bool): State {
    var n := NodeAt(s.desktop, p);
    if n.None? then s else s.(desktop := PutNode(s.desktop, p, n.value.(visible := visible)))
  }

  /** A pop-up or window appears at a place in the order, without private data. */
  function Open(s: State, p: Place, visible: bool): State {
    var nodes := ListAt(s.desktop, p.list);
    if nodes.None? || p.index > |nodes.value| then s
    else
      var ns := nodes.value;
      s.(desktop := PutList(s.desktop, p.list, ns[..p.index] + [Node(visible, None)] + ns[p.index..]))
  }

  /** A pop-up or window that has no private data goes away. */
  function Close(s: State, p: Place): State {
    var n := NodeAt(s.desktop, p);
    if n.None? || n.value.priv.Some? then s
    else
      var ns := ListAt(s.desktop, p.list).value;
      s.(desktop := PutList(s.desktop, p.list, ns[..p.index] + ns[p.index + 1..]))
  }

  function Apply(s: State, step: Step): State
    requires s.ops.Some? ==> s.ctxt.Some?
  {
    match step
    case DoRegister(name, ops) => Register(s, name, ops).0
    case DoUnregister(name) => Unregister(s, name).0
    case DoSelect(name, outcome, answers) => Select(s, name, outcome, answers)
    case DoStore(place, value) => Store(s, place, value)
    case DoShow(place, visible) => Show(s, place, visible)
    case DoOpen(place, visible) => Open(s, place, visible)
    case DoClose(place) => Close(s, place)
  }

  function Run(s: State, steps: seq<Step>): (r: State)
    requires s.ops.Some? ==> s.ctxt.Some?
    ensures r.ops.Some? ==> r.ctxt.Some?
  {
    if steps == [] then s else Apply(Run(s, steps[..|steps| - 1]), steps[|steps| - 1])
  }

  // ---------- the registry ----------

  ghost predicate HeldBySlot(slots: seq<Slot>, ops: Ops) {
    exists i :: 0 <= i < |slots| && slots[i].name != "" && slots[i].ops == Some(ops)
  }

  ghost predicate RegistryOk(s: State, fallback: Ops) {
    && |s.slots| == MAX_NR_COMPOSITORS
    && s.slots[0] == Slot(FALLBACK, Some(fallback))
    && (forall i :: 0 <= i < |s.slots| ==> (s.slots[i].name == "" <==> s.slots[i].ops.None?))
    && (s.ops.Some? <==> s.ctxt.Some?)
    && (s.ops.Some? ==> HeldBySlot(s.slots, s.ops.value))
  }

  lemma ReplaceSlot(slots: seq<Slot>, i: nat, slot: Slot, ops: Ops)
    requires i < |slots| && HeldBySlot(slots, ops) && slots[i].ops != Some(ops)
    ensures HeldBySlot(slots[i := slot], ops)
  {
    var j :| 0 <= j < |slots| && slots[j].name != "" && slots[j].ops == Some(ops);
    assert slots[i := slot][j] == slots[j];
  }

  lemma RegisterKeepsRegistry(s: State, fallback: Ops, name: Option<string>, ops: Option<Ops>)
    requires RegistryOk(s, fallback)
    ensures RegistryOk(Register(s, name, ops).0, fallback)
  {
    if !Blank(name) && ops.Some? {
      var i := FindName(s.slots, "");
      if i < |s.slots| && s.ops.Some? {
        ReplaceSlot(s.slots, i, Slot(Stored(name.value), ops), s.ops.value);
      }
    }
  }

  /** The slot of the current compositor cannot be vacated, nor can the fallback's. */
  lemma UnregisterKeepsRegistry(s: State, fallback: Ops, name: Option<string>)
    requires RegistryOk(s, fallback)
    ensures RegistryOk(Unregister(s, name).0, fallback)
  {
    if !Blank(name) && name.value != FALLBACK {
      var i := FindName(s.slots, name.value);
      if i < |s.slots| && s.ops.Some? && s.ops != s.slots[i].ops {
        ReplaceSlot(s.slots, i, Slot("", None), s.ops.value);
      }
    }
  }

  lemma SelectKeepsRegistry(s: State, fallback: Ops, name: Option<string>, outcome: Option<Ctxt>, answers: Answers)
    requires RegistryOk(s, fallback)
    ensures RegistryOk(Select(s, name, outcome, answers), fallback)
  {
    hide PurgeDesktop, PurgeDesktopLog, ShowDesktop, ShowDesktopLog;
    var ops := Lookup(s.slots, name);
    if ops.Some? {
      var i := FindName(s.slots, name.value);
      assert s.slots[i].name != "" && s.slots[i].ops == Some(ops.value);
    }
  }

  // ---------- the log ----------

  type Live = multiset<(Ops, Ctxt)>

  /** Replays calls against the contexts that are live: `None` if a call goes to a
      context that has not been initialised or has been terminated. */
  function Replay(live: Live, log: seq<Event>): Option<Live> {
    if log == [] then Some(live)
    else
      match Replay(live, log[..|log| - 1])
      case None => None
      case Some(l) => Next(l, log[|log| - 1])
  }

  function Next(live: Live, e: Event): Option<Live> {
    match e
    case Initialized(ops, ctxt) => Some(live + multiset{(ops, ctxt)})
    case Terminated(ops, ctxt) => if (ops, ctxt) in live then Some(live - multiset{(ops, ctxt)}) else None
    case Purged(ops, ctxt, _, _) => if (ops, ctxt) in live then Some(live) else None
    case Shown(ops, ctxt, _) => if (ops, ctxt) in live then Some(live) else None
    case Refreshed(ops, ctxt) => if (ops, ctxt) in live then Some(live) else None
  }

  lemma {:induction false} ReplayConcat(live: Live, a: seq<Event>, b: seq<Event>)
    ensures Replay(live, a + b) == if Replay(live, a).None? then None else Replay(Replay(live, a).value, b)
  {
    if b == [] {
      assert a + b == a;
    } else {
      var init := b[..|b| - 1];
      ReplayConcat(live, a, init);
      assert (a + b)[..|a + b| - 1] == a + init;
    }
  }

  lemma ReplayOne(live: Live, e: Event)
    ensures Replay(live, [e]) == Next(live, e)
  {
    assert [e][..0] == [];
  }

  /** Calls that go to one context and neither start nor end it. */
  ghost predicate Within(log: seq<Event>, ops: Ops, ctxt: Ctxt) {
    forall i :: 0 <= i < |log| ==>
      (log[i].Purged? || log[i].Shown? || log[i].Refreshed?) && log[i].ops == ops && log[i].ctxt == ctxt
  }

  lemma {:induction false} ReplayWithin(live: Live, log: seq<Event>, ops: Ops, ctxt: Ctxt)
    requires Within(log, ops, ctxt) && (ops, ctxt) in live
    ensures Replay(live, log) == Some(live)
  {
    if log != [] {
      ReplayWithin(live, log[..|log| - 1], ops, ctxt);
    }
  }

  lemma {:induction false} ListLogsWithin(nodes: seq<Node>, ops: Ops, ctxt: Ctxt, list: List, k: nat)
    requires k <= |nodes|
    ensures Within(PurgeLog(nodes, ops, ctxt, list, k), ops, ctxt)
    ensures Within(ShowLog(nodes, ops, ctxt, list, k), ops, ctxt)
  {
    if k != 0 {
      ListLogsWithin(nodes, ops, ctxt, list, k - 1);
    }
  }

  lemma {:induction false} LayerLogsWithin(layers: seq<seq<Node>>, ops: Ops, ctxt: Ctxt, k: nat)
    requires k <= |layers|
    ensures Within(PurgeLayersLog(layers, ops, ctxt, k), ops, ctxt)
    ensures Within(ShowLayersLog(layers, ops, ctxt, k), ops, ctxt)
  {
    hide PurgeLog, ShowLog;
    if k != 0 {
      LayerLogsWithin(layers, ops, ctxt, k - 1);
      ListLogsWithin(layers[k - 1], ops, ctxt, Layer(k - 1), |layers[k - 1]|);
    }
  }

  lemma DesktopLogsWithin(d: Desktop, ops: Ops, ctxt: Ctxt)
    ensures Within(PurgeDesktopLog(d, ops, ctxt), ops, ctxt)
    ensures Within(ShowDesktopLog(d, ops, ctxt), ops, ctxt)
  {
    hide PurgeLog, ShowLog, PurgeLayersLog, ShowLayersLog;
    ListLogsWithin(d.popups, ops, ctxt, Popups, |d.popups|);
    LayerLogsWithin(d.layers, ops, ctxt, |d.layers|);
  }

  function LiveOf(s: State): Live {
    if s.ops.Some? && s.ctxt.Some? then multiset{(s.ops.value, s.ctxt.value)} else multiset{}
  }

  /** Every call so far went to a live context, and the live ones are exactly the
      current one. */
  ghost predicate LogOk(s: State) {
    Replay(multiset{}, s.log) == Some(LiveOf(s))
  }

  /** Leaving a context: purges, then its termination. */
  lemma ReplayLeave(live: Live, d: Desktop, ops: Ops, ctxt: Ctxt)
    requires (ops, ctxt) in live
    ensures Replay(live, PurgeDesktopLog(d, ops, ctxt) + [Terminated(ops, ctxt)]) == Some(live - multiset{(ops, ctxt)})
  {
    hide PurgeDesktopLog, Replay;
    var log := PurgeDesktopLog(d, ops, ctxt);
    DesktopLogsWithin(d, ops, ctxt);
    ReplayConcat(live, log, [Terminated(ops, ctxt)]);
    ReplayWithin(live, log, ops, ctxt);
    ReplayOne(live, Terminated(ops, ctxt));
  }

  lemma ReplayEnter(live: Live, d: Desktop, ops: Ops, ctxt: Ctxt)
    requires (ops, ctxt) in live
    ensures Replay(live, ShowDesktopLog(d, ops, ctxt) + [Refreshed(ops, ctxt)]) == Some(live)
  {
    hide ShowDesktopLog, Replay;
    var log := ShowDesktopLog(d, ops, ctxt);
    DesktopLogsWithin(d, ops, ctxt);
    ReplayConcat(live, log, [Refreshed(ops, ctxt)]);
    ReplayWithin(live, log, ops, ctxt);
    ReplayOne(live, Refreshed(ops, ctxt));
  }

  lemma SwitchKeepsLog(s: State, ops: Ops, ctxt: Ctxt, answers: Answers)
    requires LogOk(s) && (s.ops.Some? <==> s.ctxt.Some?)
    ensures LogOk(Switch(s, ops, ctxt, answers))
  {
    hide PurgeDesktop, PurgeDesktopLog, ShowDesktop, ShowDesktopLog, Replay;
    var d := if s.ops.Some? then PurgeDesktop(s.desktop, s.ops.value) else s.desktop;
    var leave := if s.ops.Some? then
      PurgeDesktopLog(s.desktop, s.ops.value, s.ctxt.value) + [Terminated(s.ops.value, s.ctxt.value)] else [];
    var enter := ShowDesktopLog(d, ops, ctxt) + [Refreshed(ops, ctxt)];
    var now := LiveOf(s) + multiset{(ops, ctxt)};
    ReplayConcat(multiset{}, s.log, [Initialized(ops, ctxt)]);
    ReplayOne(LiveOf(s), Initialized(ops, ctxt));
    ReplayConcat(multiset{}, s.log + [Initialized(ops, ctxt)], leave);
    if s.ops.Some? {
      ReplayLeave(now, s.desktop, s.ops.value, s.ctxt.value);
      assert now - multiset{(s.ops.value, s.ctxt.value)} == multiset{(ops, ctxt)};
    } else {
      ReplayEmpty(now);
      assert now == multiset{(ops, ctxt)};
    }
    ReplayConcat(multiset{}, s.log + [Initialized(ops, ctxt)] + leave, enter);
    ReplayEnter(multiset{(ops, ctxt)}, d, ops, ctxt);
    ConcatAssoc(s.log + [Initialized(ops, ctxt)] + leave, ShowDesktopLog(d, ops, ctxt), [Refreshed(ops, ctxt)]);
  }

  lemma ReplayEmpty(live: Live)
    ensures Replay(live, []) == Some(live)
  {}

  // ---------- any run ----------

  lemma StepKeepsInvariant(s: State, fallback: Ops, step: Step)
    requires RegistryOk(s, fallback) && LogOk(s)
    ensures RegistryOk(Apply(s, step), fallback) && LogOk(Apply(s, step))
  {
    hide Replay, Switch;
    match step
    case DoRegister(name, ops) => RegisterKeepsRegistry(s, fallback, name, ops);
    case DoUnregister(name) => UnregisterKeepsRegistry(s, fallback, name);
    case DoSelect(name, outcome, answers) =>
      SelectKeepsRegistry(s, fallback, name, outcome, answers);
      if Select(s, name, outcome, answers) != s {
        SwitchKeepsLog(s, Lookup(s.slots, name).value, outcome.value, answers);
      }
    case _ =>
  }

  /** After any run: the current compositor is none or one that an occupied slot
      holds, the fallback is still in slot 0, and the log is legal. */
  lemma {:induction false} RunKeepsInvariant(fallback: Ops, d: Desktop, steps: seq<Step>)
    ensures var s := Run(Initial(fallback, d), steps);
            RegistryOk(s, fallback) && LogOk(s)
  {
    if steps != [] {
      hide Apply, Replay;
      RunKeepsInvariant(fallback, d, steps[..|steps| - 1]);
      StepKeepsInvariant(Run(Initial(fallback, d), steps[..|steps| - 1]), fallback, steps[|steps| - 1]);
    }
  }

  function Initialisations(log: seq<Event>): nat {
    if log == [] then 0 else Initialisations(log[..|log| - 1]) + if log[|log| - 1].Initialized? then 1 else 0
  }

  function Terminations(log: seq<Event>): nat {
    if log == [] then 0 else Terminations(log[..|log| - 1]) + if log[|log| - 1].Terminated? then 1 else 0
  }

  lemma {:induction false} LiveCount(log: seq<Event>)
    requires Replay(multiset{}, log).Some?
    ensures |Replay(multiset{}, log).value| == Initialisations(log) - Terminations(log)
  {
    if log != [] {
      LiveCount(log[..|log| - 1]);
    }
  }

  /** Successful initialisations exceed terminations by one exactly when there is a
      current compositor; otherwise they are equal. */
  lemma InitialisationsBalance(fallback: Ops, d: Desktop, steps: seq<Step>)
    ensures var s := Run(Initial(fallback, d), steps);
            Initialisations(s.log) == Terminations(s.log) + if s.ops.Some? then 1 else 0
  {
    RunKeepsInvariant(fallback, d, steps);
    LiveCount(Run(Initial(fallback, d), steps).log);
  }

  // ---------- who owns private data ----------

  ghost predicate OwnedBy(n: Option<Node>, ops: Option<Ops>, ctxt: Option<Ctxt>) {
    n.Some? && n.value.priv.Some? ==>
      ops == Some(n.value.priv.value.owner) && ctxt == Some(n.value.priv.value.ctxt)
  }

  /** All private data belongs to the current context, and its owner can purge it. */
  ghost predicate Owned(s: State) {
    forall p: Place :: OwnedBy(NodeAt(s.desktop, p), s.ops, s.ctxt)
      && (NodeAt(s.desktop, p).Some? && NodeAt(s.desktop, p).value.priv.Some? ==>
            Purges(NodeAt(s.desktop, p).value.priv.value.owner, p.list))
  }

  /** The step stores data only where the storing compositor has a purge operation. */
  ghost predicate Supplied(s: State, step: Step) {
    match step
    case DoSelect(name, _, answers) =>
      forall p: Place :: answers(p).Some? && Lookup(s.slots, name).Some? ==> Purges(Lookup(s.slots, name).value, p.list)
    case DoStore(p, _) => s.ops.Some? ==> Purges(s.ops.value, p.list)
    case _ => true
  }

  /** Purging, node by node. */
  lemma PurgedAt(d: Desktop, ops: Ops, p: Place)
    ensures NodeAt(PurgeDesktop(d, ops), p)
         == if NodeAt(d, p).Some? then Some(PurgeNode(NodeAt(d, p).value, Purges(ops, p.list))) else None
  {}

  lemma ShownAt(d: Desktop, ops: Ops, ctxt: Ctxt, answers: Answers, p: Place)
    ensures NodeAt(ShowDesktop(d, ops, ctxt, answers), p)
         == if NodeAt(d, p).Some? then Some(ShowNode(NodeAt(d, p).value, ops, ctxt, answers(p))) else None
  {
    assert p == Place(p.list, p.index);
  }

  /** After a switch a node keeps old data exactly when it had some that the old
      compositor has no operation to purge, and nothing new was stored over it. */
  lemma SwitchAt(s: State, ops: Ops, ctxt: Ctxt, answers: Answers, p: Place)
    requires s.ops.Some? ==> s.ctxt.Some?
    ensures var n, r := NodeAt(s.desktop, p), NodeAt(Switch(s, ops, ctxt, answers).desktop, p);
            if n.None? then r.None?
            else r == Some(Node(n.value.visible,
              if n.value.visible && answers(p).Some? then Some(Data(ops, ctxt, answers(p).value))
              else if s.ops.Some? && Purges(s.ops.value, p.list) then None
              else n.value.priv))
  {
    var d := if s.ops.Some? then PurgeDesktop(s.desktop, s.ops.value) else s.desktop;
    hide PurgeDesktop, ShowDesktop, PurgeDesktopLog, ShowDesktopLog;
    if s.ops.Some? { PurgedAt(s.desktop, s.ops.value, p); }
    ShownAt(d, ops, ctxt, answers, p);
  }

  lemma StoredAt(d: Desktop, p: Place, n: Node, q: Place)
    requires NodeAt(d, p).Some?
    ensures NodeAt(PutNode(d, p, n), q) == if q == p then Some(n) else NodeAt(d, q)
  {}

  /** Some node of the same list has this data. */
  ghost predicate DataFrom(d: Desktop, q: Place, priv: Option<Data>) {
    exists i: nat :: NodeAt(d, Place(q.list, i)).Some? && NodeAt(d, Place(q.list, i)).value.priv == priv
  }

  lemma ShownLater(s: State, p: Place, visible: bool, q: Place)
    requires NodeAt(Show(s, p, visible).desktop, q).Some?
    ensures DataFrom(s.desktop, q, NodeAt(Show(s, p, visible).desktop, q).value.priv)
  {
    var n := NodeAt(s.desktop, p);
    if n.Some? { StoredAt(s.desktop, p, n.value.(visible := visible), q); }
    assert NodeAt(s.desktop, Place(q.list, q.index)).Some?;
  }

  lemma PutListAt(d: Desktop, list: List, nodes: seq<Node>, q: Place)
    requires ListAt(d, list).Some?
    ensures NodeAt(PutList(d, list, nodes), q)
         == if q.list != list then NodeAt(d, q) else if q.index < |nodes| then Some(nodes[q.index]) else None
  {}

  lemma InList(d: Desktop, list: List, i: nat)
    requires ListAt(d, list).Some? && i < |ListAt(d, list).value|
    ensures NodeAt(d, Place(list, i)) == Some(ListAt(d, list).value[i])
  {}

  lemma OpenedAt(s: State, p: Place, visible: bool, q: Place)
    requires var n := NodeAt(Open(s, p, visible).desktop, q); n.Some? && n.value.priv.Some?
    ensures DataFrom(s.desktop, q, NodeAt(Open(s, p, visible).desktop, q).value.priv)
  {
    var nodes := ListAt(s.desktop, p.list);
    if nodes.Some? && p.index <= |nodes.value| && q.list == p.list {
      var ns := nodes.value;
      PutListAt(s.desktop, p.list, ns[..p.index] + [Node(visible, None)] + ns[p.index..], q);
      InList(s.desktop, p.list, if q.index < p.index then q.index else q.index - 1);
    } else {
      if nodes.Some? && p.index <= |nodes.value| {
        var ns := nodes.value;
        PutListAt(s.desktop, p.list, ns[..p.index] + [Node(visible, None)] + ns[p.index..], q);
      }
      assert NodeAt(s.desktop, Place(q.list, q.index)).Some?;
    }
  }

  lemma ClosedAt(s: State, p: Place, q: Place)
    requires NodeAt(Close(s, p).desktop, q).Some?
    ensures DataFrom(s.desktop, q, NodeAt(Close(s, p).desktop, q).value.priv)
  {
    var n := NodeAt(s.desktop, p);
    if n.Some? && n.value.priv.None? {
      var ns := ListAt(s.desktop, p.list).value;
      PutListAt(s.desktop, p.list, ns[..p.index] + ns[p.index + 1..], q);
      if q.list == p.list {
        InList(s.desktop, p.list, if q.index < p.index then q.index else q.index + 1);
      } else {
        assert NodeAt(s.desktop, Place(q.list, q.index)).Some?;
      }
    } else {
      assert NodeAt(s.desktop, Place(q.list, q.index)).Some?;
    }
  }

  /** Data that only moved within its list still belongs to the current context. */
  lemma MovedKeepsOwned(s: State, r: State)
    requires Owned(s) && r.ops == s.ops && r.ctxt == s.ctxt
    requires forall q: Place :: NodeAt(r.desktop, q).Some? && NodeAt(r.desktop, q).value.priv.Some? ==>
               DataFrom(s.desktop, q, NodeAt(r.desktop, q).value.priv)
    ensures Owned(r)
  {
    forall q: Place
      ensures OwnedBy(NodeAt(r.desktop, q), r.ops, r.ctxt)
      ensures NodeAt(r.desktop, q).Some? && NodeAt(r.desktop, q).value.priv.Some? ==>
                Purges(NodeAt(r.desktop, q).value.priv.value.owner, q.list)
    {
      if NodeAt(r.desktop, q).Some? && NodeAt(r.desktop, q).value.priv.Some? {
        var i: nat :| NodeAt(s.desktop, Place(q.list, i)).Some?
          && NodeAt(s.desktop, Place(q.list, i)).value.priv == NodeAt(r.desktop, q).value.priv;
        assert OwnedBy(NodeAt(s.desktop, Place(q.list, i)), s.ops, s.ctxt);
      }
    }
  }

  lemma StepKeepsOwned(s: State, fallback: Ops, step: Step)
    requires RegistryOk(s, fallback) && Owned(s) && Supplied(s, step)
    ensures Owned(Apply(s, step))
  {
    hide Switch;
    var r := Apply(s, step);
    match step
    case DoSelect(name, outcome, answers) =>
      if r != s {
        var ops := Lookup(s.slots, name).value;
        SwitchFields(s, ops, outcome.value, answers);
        forall p: Place
          ensures OwnedBy(NodeAt(r.desktop, p), r.ops, r.ctxt)
          ensures NodeAt(r.desktop, p).Some? && NodeAt(r.desktop, p).value.priv.Some? ==>
                    Purges(NodeAt(r.desktop, p).value.priv.value.owner, p.list)
        {
          SwitchAt(s, ops, outcome.value, answers, p);
        }
      }
    case DoStore(p, value) =>
      if r != s {
        forall q: Place
          ensures OwnedBy(NodeAt(r.desktop, q), r.ops, r.ctxt)
          ensures NodeAt(r.desktop, q).Some? && NodeAt(r.desktop, q).value.priv.Some? ==>
                    Purges(NodeAt(r.desktop, q).value.priv.value.owner, q.list)
        {
          StoredAt(s.desktop, p, NodeAt(r.desktop, p).value, q);
        }
      }
    case DoShow(p, visible) =>
      forall q: Place | NodeAt(r.desktop, q).Some? && NodeAt(r.desktop, q).value.priv.Some?
        ensures DataFrom(s.desktop, q, NodeAt(r.desktop, q).value.priv)
      {
        ShownLater(s, p, visible, q);
      }
      MovedKeepsOwned(s, r);
    case DoOpen(p, visible) =>
      forall q: Place | NodeAt(r.desktop, q).Some? && NodeAt(r.desktop, q).value.priv.Some?
        ensures DataFrom(s.desktop, q, NodeAt(r.desktop, q).value.priv)
      {
        OpenedAt(s, p, visible, q);
      }
      MovedKeepsOwned(s, r);
    case DoClose(p) =>
      forall q: Place | NodeAt(r.desktop, q).Some? && NodeAt(r.desktop, q).value.priv.Some?
        ensures DataFrom(s.desktop, q, NodeAt(r.desktop, q).value.priv)
      {
        ClosedAt(s, p, q);
      }
      MovedKeepsOwned(s, r);
    case _ =>
  }

  lemma SwitchFields(s: State, ops: Ops, ctxt: Ctxt, answers: Answers)
    requires s.ops.Some? ==> s.ctxt.Some?
    ensures Switch(s, ops, ctxt, answers).ops == Some(ops) && Switch(s, ops, ctxt, answers).ctxt == Some(ctxt)
  {}

  ghost predicate AllSupplied(s: State, steps: seq<Step>)
    requires s.ops.Some? ==> s.ctxt.Some?
  {
    forall i :: 0 <= i < |steps| ==> Supplied(Run(s, steps[..i]), steps[i])
  }

  ghost predicate NoData(d: Desktop) {
    forall p: Place :: NodeAt(d, p).Some? ==> NodeAt(d, p).value.priv.None?
  }

  /** After any run of compositors that can purge what they store, every piece of
      private data belongs to the current context. */
  lemma {:induction false} RunKeepsOwned(fallback: Ops, d: Desktop, steps: seq<Step>)
    requires NoData(d) && AllSupplied(Initial(fallback, d), steps)
    ensures Owned(Run(Initial(fallback, d), steps))
  {
    hide Apply;
    var s := Initial(fallback, d);
    if steps != [] {
      var init := steps[..|steps| - 1];
      forall i | 0 <= i < |init| ensures Supplied(Run(s, init[..i]), init[i]) {
        assert init[..i] == steps[..i] && Supplied(Run(s, steps[..i]), steps[i]);
      }
      RunKeepsOwned(fallback, d, init);
      RunKeepsInvariant(fallback, d, init);
      StepKeepsOwned(Run(s, init), fallback, steps[|steps| - 1]);
    }
  }

  // ---------- every visible node is shown once ----------

  function Occurrences(log: seq<Event>, e: Event): nat {
    if log == [] then 0 else Occurrences(log[..|log| - 1], e) + if log[|log| - 1] == e then 1 else 0
  }

  lemma {:induction false} OccurrencesConcat(a: seq<Event>, b: seq<Event>, e: Event)
    ensures Occurrences(a + b, e) == Occurrences(a, e) + Occurrences(b, e)
  {
    if b == [] {
      assert a + b == a;
    } else {
      OccurrencesConcat(a, b[..|b| - 1], e);
      assert (a + b)[..|a + b| - 1] == a + b[..|b| - 1];
    }
  }

  lemma OneMoreOccurrence(log: seq<Event>, x: Event, e: Event)
    ensures Occurrences(log + [x], e) == Occurrences(log, e) + if x == e then 1 else 0
  {
    assert (log + [x])[..|log + [x]| - 1] == log;
  }

  lemma OccurrencesOne(x: Event, e: Event)
    ensures Occurrences([x], e) == (if x == e then 1 else 0) && Occurrences([], e) == 0
  {
    assert [x][..0] == [];
  }

  predicate IsVisible(n: Option<Node>) {
    n.Some? && n.value.visible
  }

  lemma {:induction false} ShownOnceInList(nodes: seq<Node>, ops: Ops, ctxt: Ctxt, list: List, k: nat, p: Place)
    requires k <= |nodes|
    ensures Occurrences(ShowLog(nodes, ops, ctxt, list, k), Shown(ops, ctxt, p))
         == if p.list == list && p.index < k && nodes[p.index].visible then 1 else 0
  {
    hide Occurrences;
    if k == 0 {
      OccurrencesOne(Refreshed(ops, ctxt), Shown(ops, ctxt, p));
    } else {
      ShownOnceInList(nodes, ops, ctxt, list, k - 1, p);
      var before := ShowLog(nodes, ops, ctxt, list, k - 1);
      if nodes[k - 1].visible {
        OneMoreOccurrence(before, Shown(ops, ctxt, Place(list, k - 1)), Shown(ops, ctxt, p));
      } else {
        assert before + [] == before;
      }
    }
  }

  lemma {:induction false} ShownOnceInLayers(layers: seq<seq<Node>>, ops: Ops, ctxt: Ctxt, k: nat, p: Place)
    requires k <= |layers|
    ensures Occurrences(ShowLayersLog(layers, ops, ctxt, k), Shown(ops, ctxt, p))
         == if p.list.Layer? && p.list.index < k && p.index < |layers[p.list.index]| && layers[p.list.index][p.index].visible then 1 else 0
  {
    hide ShowLog, Occurrences;
    if k != 0 {
      ShownOnceInLayers(layers, ops, ctxt, k - 1, p);
      ShownOnceInList(layers[k - 1], ops, ctxt, Layer(k - 1), |layers[k - 1]|, p);
      OccurrencesConcat(ShowLayersLog(layers, ops, ctxt, k - 1),
        ShowLog(layers[k - 1], ops, ctxt, Layer(k - 1), |layers[k - 1]|), Shown(ops, ctxt, p));
    } else {
      OccurrencesOne(Refreshed(ops, ctxt), Shown(ops, ctxt, p));
    }
  }

  lemma ShownOnceInDesktop(d: Desktop, ops: Ops, ctxt: Ctxt, p: Place)
    ensures Occurrences(ShowDesktopLog(d, ops, ctxt), Shown(ops, ctxt, p)) == if IsVisible(NodeAt(d, p)) then 1 else 0
  {
    hide ShowLog, ShowLayersLog, Occurrences;
    ShownOnceInList(d.popups, ops, ctxt, Popups, |d.popups|, p);
    ShownOnceInLayers(d.layers, ops, ctxt, |d.layers|, p);
    OccurrencesConcat(ShowLog(d.popups, ops, ctxt, Popups, |d.popups|), ShowLayersLog(d.layers, ops, ctxt, |d.layers|), Shown(ops, ctxt, p));
  }

  ghost predicate ShownIn(log: seq<Event>, list: List) {
    forall i :: 0 <= i < |log| ==> log[i].Shown? && log[i].place.list == list
  }

  ghost predicate ShownInLayers(log: seq<Event>) {
    forall i :: 0 <= i < |log| ==> log[i].Shown? && log[i].place.list.Layer?
  }

  lemma {:induction false} LayersShowNoPopups(layers: seq<seq<Node>>, ops: Ops, ctxt: Ctxt, k: nat)
    requires k <= |layers|
    ensures ShownInLayers(ShowLayersLog(layers, ops, ctxt, k))
  {
    if k != 0 {
      hide ShowLog;
      LayersShowNoPopups(layers, ops, ctxt, k - 1);
      ListShows(layers[k - 1], ops, ctxt, Layer(k - 1), |layers[k - 1]|);
    }
  }

  lemma {:induction false} ListShows(nodes: seq<Node>, ops: Ops, ctxt: Ctxt, list: List, k: nat)
    requires k <= |nodes|
    ensures ShownIn(ShowLog(nodes, ops, ctxt, list, k), list)
  {
    if k != 0 {
      ListShows(nodes, ops, ctxt, list, k - 1);
    }
  }

  lemma PopupsFirstInDesktop(d: Desktop, ops: Ops, ctxt: Ctxt, i: nat, j: nat)
    requires i < j < |ShowDesktopLog(d, ops, ctxt)|
    ensures var log := ShowDesktopLog(d, ops, ctxt);
            log[i].Shown? && log[j].Shown? && (log[j].place.list.Popups? ==> log[i].place.list.Popups?)
  {
    hide ShowLog, ShowLayersLog;
    ListShows(d.popups, ops, ctxt, Popups, |d.popups|);
    LayersShowNoPopups(d.layers, ops, ctxt, |d.layers|);
  }

  // ---------- every purgeable piece of data is purged once ----------

  predicate Holds(n: Option<Node>, data: Data) {
    n.Some? && n.value.priv == Some(data)
  }

  lemma {:induction false} PurgedOnceInList(nodes: seq<Node>, ops: Ops, ctxt: Ctxt, list: List, k: nat, p: Place, data: Data)
    requires k <= |nodes|
    ensures Occurrences(PurgeLog(nodes, ops, ctxt, list, k), Purged(ops, ctxt, p, data))
         == if p.list == list && p.index < k && nodes[p.index].priv == Some(data) && Purges(ops, list) then 1 else 0
  {
    hide Occurrences, Purges;
    var e := Purged(ops, ctxt, p, data);
    if k == 0 {
      OccurrencesOne(Refreshed(ops, ctxt), e);
    } else {
      PurgedOnceInList(nodes, ops, ctxt, list, k - 1, p, data);
      var n, before := nodes[k - 1], PurgeLog(nodes, ops, ctxt, list, k - 1);
      if n.priv.Some? && Purges(ops, list) {
        OneMoreOccurrence(before, Purged(ops, ctxt, Place(list, k - 1), n.priv.value), e);
      } else {
        assert before + [] == before;
      }
    }
  }

  lemma {:induction false} PurgedOnceInLayers(layers: seq<seq<Node>>, ops: Ops, ctxt: Ctxt, k: nat, p: Place, data: Data)
    requires k <= |layers|
    ensures Occurrences(PurgeLayersLog(layers, ops, ctxt, k), Purged(ops, ctxt, p, data))
         == if p.list.Layer? && p.list.index < k && p.index < |layers[p.list.index]|
               && layers[p.list.index][p.index].priv == Some(data) && ops.purgesWin then 1 else 0
  {
    hide PurgeLog, Occurrences;
    if k != 0 {
      PurgedOnceInLayers(layers, ops, ctxt, k - 1, p, data);
      PurgedOnceInList(layers[k - 1], ops, ctxt, Layer(k - 1), |layers[k - 1]|, p, data);
      OccurrencesConcat(PurgeLayersLog(layers, ops, ctxt, k - 1),
        PurgeLog(layers[k - 1], ops, ctxt, Layer(k - 1), |layers[k - 1]|), Purged(ops, ctxt, p, data));
    } else {
      OccurrencesOne(Refreshed(ops, ctxt), Purged(ops, ctxt, p, data));
    }
  }

  lemma PurgedOnceInDesktop(d: Desktop, ops: Ops, ctxt: Ctxt, p: Place, data: Data)
    ensures Occurrences(PurgeDesktopLog(d, ops, ctxt), Purged(ops, ctxt, p, data))
         == if Holds(NodeAt(d, p), data) && Purges(ops, p.list) then 1 else 0
  {
    hide PurgeLog, PurgeLayersLog, Occurrences;
    PurgedOnceInList(d.popups, ops, ctxt, Popups, |d.popups|, p, data);
    PurgedOnceInLayers(d.layers, ops, ctxt, |d.layers|, p, data);
    OccurrencesConcat(PurgeLog(d.popups, ops, ctxt, Popups, |d.popups|),
      PurgeLayersLog(d.layers, ops, ctxt, |d.layers|), Purged(ops, ctxt, p, data));
  }

  // ---------- all of this for the calls of a switch ----------

  /** The calls that a switch makes: the new context is initialised, the old one purged
      and terminated, the nodes shown to the new one, and it is refreshed. */
  function SwitchCalls(s: State, ops: Ops, ctxt: Ctxt, answers: Answers): seq<Event>
    requires s.ops.Some? ==> s.ctxt.Some?
  {
    var r := Switch(s, ops, ctxt, answers);
    r.log[|s.log|..]
  }

  function Leave(s: State): seq<Event>
    requires s.ops.Some? ==> s.ctxt.Some?
  {
    if s.ops.Some? then
      PurgeDesktopLog(s.desktop, s.ops.value, s.ctxt.value) + [Terminated(s.ops.value, s.ctxt.value)]
    else []
  }

  function AfterLeave(s: State): Desktop {
    if s.ops.Some? then PurgeDesktop(s.desktop, s.ops.value) else s.desktop
  }

  lemma CallsOfSwitch(s: State, ops: Ops, ctxt: Ctxt, answers: Answers)
    requires s.ops.Some? ==> s.ctxt.Some?
    ensures Switch(s, ops, ctxt, answers).log == s.log + SwitchCalls(s, ops, ctxt, answers)
    ensures SwitchCalls(s, ops, ctxt, answers)
         == [Initialized(ops, ctxt)] + Leave(s) + ShowDesktopLog(AfterLeave(s), ops, ctxt) + [Refreshed(ops, ctxt)]
  {
    hide PurgeDesktop, PurgeDesktopLog, ShowDesktop, ShowDesktopLog;
    var shows := ShowDesktopLog(AfterLeave(s), ops, ctxt);
    assert Switch(s, ops, ctxt, answers).log
        == s.log + ([Initialized(ops, ctxt)] + Leave(s) + shows + [Refreshed(ops, ctxt)]);
  }

  /** How often a call occurs in the four parts of a switch. */
  lemma OccurrencesInSwitch(s: State, ops: Ops, ctxt: Ctxt, answers: Answers, e: Event)
    requires s.ops.Some? ==> s.ctxt.Some?
    requires e.Shown? || e.Purged?
    ensures Occurrences(SwitchCalls(s, ops, ctxt, answers), e)
         == (if s.ops.Some? then Occurrences(PurgeDesktopLog(s.desktop, s.ops.value, s.ctxt.value), e) else 0)
            + Occurrences(ShowDesktopLog(AfterLeave(s), ops, ctxt), e)
  {
    hide PurgeDesktopLog, ShowDesktopLog, Occurrences, SwitchCalls, AfterLeave;
    CallsOfSwitch(s, ops, ctxt, answers);
    var first, shows := [Initialized(ops, ctxt)], ShowDesktopLog(AfterLeave(s), ops, ctxt);
    OneMoreOccurrence(first + Leave(s) + shows, Refreshed(ops, ctxt), e);
    OccurrencesConcat(first + Leave(s), shows, e);
    OccurrencesConcat(first, Leave(s), e);
    OccurrencesOne(Initialized(ops, ctxt), e);
    if s.ops.Some? {
      OneMoreOccurrence(PurgeDesktopLog(s.desktop, s.ops.value, s.ctxt.value), Terminated(s.ops.value, s.ctxt.value), e);
    }
  }

  ghost predicate NoneOccurs(log: seq<Event>, e: Event) {
    forall i :: 0 <= i < |log| ==> log[i] != e
  }

  lemma {:induction false} NoOccurrence(log: seq<Event>, e: Event)
    requires NoneOccurs(log, e)
    ensures Occurrences(log, e) == 0
  {
    if log != [] {
      NoOccurrence(log[..|log| - 1], e);
    }
  }

  ghost predicate AllPurges(log: seq<Event>) {
    forall i :: 0 <= i < |log| ==> log[i].Purged?
  }

  ghost predicate AllShows(log: seq<Event>) {
    forall i :: 0 <= i < |log| ==> log[i].Shown?
  }

  lemma {:induction false} ListPurges(nodes: seq<Node>, ops: Ops, ctxt: Ctxt, list: List, k: nat)
    requires k <= |nodes|
    ensures AllPurges(PurgeLog(nodes, ops, ctxt, list, k))
  {
    if k != 0 {
      ListPurges(nodes, ops, ctxt, list, k - 1);
    }
  }

  lemma {:induction false} LayersPurge(layers: seq<seq<Node>>, ops: Ops, ctxt: Ctxt, k: nat)
    requires k <= |layers|
    ensures AllPurges(PurgeLayersLog(layers, ops, ctxt, k))
  {
    hide PurgeLog;
    if k != 0 {
      LayersPurge(layers, ops, ctxt, k - 1);
      ListPurges(layers[k - 1], ops, ctxt, Layer(k - 1), |layers[k - 1]|);
    }
  }

  lemma DesktopPurges(d: Desktop, ops: Ops, ctxt: Ctxt)
    ensures AllPurges(PurgeDesktopLog(d, ops, ctxt))
  {
    hide PurgeLog, PurgeLayersLog;
    ListPurges(d.popups, ops, ctxt, Popups, |d.popups|);
    LayersPurge(d.layers, ops, ctxt, |d.layers|);
  }

  lemma DesktopShows(d: Desktop, ops: Ops, ctxt: Ctxt)
    ensures AllShows(ShowDesktopLog(d, ops, ctxt))
  {
    hide ShowLog, ShowLayersLog;
    ListShows(d.popups, ops, ctxt, Popups, |d.popups|);
    LayersShowNoPopups(d.layers, ops, ctxt, |d.layers|);
  }

  /** A switch calls the new compositor's `on_showing` exactly once for each visible node,
      and for no other. */
  lemma ShownOnce(s: State, ops: Ops, ctxt: Ctxt, answers: Answers, p: Place)
    requires s.ops.Some? ==> s.ctxt.Some?
    ensures Occurrences(SwitchCalls(s, ops, ctxt, answers), Shown(ops, ctxt, p))
         == if IsVisible(NodeAt(s.desktop, p)) then 1 else 0
  {
    hide PurgeDesktopLog, ShowDesktopLog, Occurrences, SwitchCalls, PurgeDesktop;
    OccurrencesInSwitch(s, ops, ctxt, answers, Shown(ops, ctxt, p));
    ShownOnceInDesktop(AfterLeave(s), ops, ctxt, p);
    if s.ops.Some? {
      DesktopPurges(s.desktop, s.ops.value, s.ctxt.value);
      NoOccurrence(PurgeDesktopLog(s.desktop, s.ops.value, s.ctxt.value), Shown(ops, ctxt, p));
      PurgedAt(s.desktop, s.ops.value, p);
    }
  }

  /** A switch hands each node's data back to the old compositor exactly once, if that has
      an operation to take it. */
  lemma PurgedOnce(s: State, ops: Ops, ctxt: Ctxt, answers: Answers, p: Place, data: Data)
    requires s.ops.Some? && s.ctxt.Some?
    ensures Occurrences(SwitchCalls(s, ops, ctxt, answers), Purged(s.ops.value, s.ctxt.value, p, data))
         == if Holds(NodeAt(s.desktop, p), data) && Purges(s.ops.value, p.list) then 1 else 0
  {
    hide PurgeDesktopLog, ShowDesktopLog, Occurrences, SwitchCalls, AfterLeave;
    var e := Purged(s.ops.value, s.ctxt.value, p, data);
    OccurrencesInSwitch(s, ops, ctxt, answers, e);
    PurgedOnceInDesktop(s.desktop, s.ops.value, s.ctxt.value, p, data);
    DesktopShows(AfterLeave(s), ops, ctxt);
    NoOccurrence(ShowDesktopLog(AfterLeave(s), ops, ctxt), e);
  }

  /** In which part of a switch a call may come. */
  function Phase(e: Event): nat {
    match e
    case Initialized(_, _) => 0
    case Purged(_, _, _, _) => 1
    case Terminated(_, _) => 2
    case Shown(_, _, place) => if place.list.Popups? then 3 else 4
    case Refreshed(_, _) => 5
  }

  /** The calls come in this order: initialise, purge, terminate, show the pop-ups, show
      the windows, refresh. */
  lemma SwitchInOrder(s: State, ops: Ops, ctxt: Ctxt, answers: Answers, i: nat, j: nat)
    requires s.ops.Some? ==> s.ctxt.Some?
    requires i < j < |SwitchCalls(s, ops, ctxt, answers)|
    ensures Phase(SwitchCalls(s, ops, ctxt, answers)[i]) <= Phase(SwitchCalls(s, ops, ctxt, answers)[j])
  {
    hide PurgeDesktopLog, ShowDesktopLog, SwitchCalls, AfterLeave;
    CallsOfSwitch(s, ops, ctxt, answers);
    var shows, l := ShowDesktopLog(AfterLeave(s), ops, ctxt), 1 + |Leave(s)|;
    DesktopShows(AfterLeave(s), ops, ctxt);
    if s.ops.Some? {
      DesktopPurges(s.desktop, s.ops.value, s.ctxt.value);
    }
    if l <= i && j < l + |shows| {
      PopupsFirstInDesktop(AfterLeave(s), ops, ctxt, i - l, j - l);
    }
  }

  // ---------- the same for selections ----------

  lemma SelectionIsSwitch(s: State, name: Option<string>, outcome: Option<Ctxt>, answers: Answers, o: Ops, c: Ctxt)
    requires (s.ops.Some? ==> s.ctxt.Some?) && Switches(s, name, outcome, o, c)
    ensures Select(s, name, outcome, answers) == Switch(s, o, c, answers)
  {
    hide Switch, Lookup, Names;
    NamesIsLookup(s.slots, name, o);
  }

  /** The calls of a selection. */
  function Calls(s: State, r: State): seq<Event> {
    if |s.log| <= |r.log| then r.log[|s.log|..] else []
  }

  lemma CallsOfSelection(s: State, name: Option<string>, outcome: Option<Ctxt>, answers: Answers, o: Ops, c: Ctxt)
    requires (s.ops.Some? ==> s.ctxt.Some?) && Switches(s, name, outcome, o, c)
    ensures Calls(s, Select(s, name, outcome, answers)) == SwitchCalls(s, o, c, answers)
  {
    hide Switch, Select, Switches;
    SelectionIsSwitch(s, name, outcome, answers, o, c);
    CallsOfSwitch(s, o, c, answers);
  }

  /** After a selection that switches, a node has what the new compositor stored with it; if
      nothing, it has lost its old data if the old compositor could purge it. */
  lemma SelectionAt(s: State, name: Option<string>, outcome: Option<Ctxt>, answers: Answers, o: Ops, c: Ctxt, p: Place)
    requires (s.ops.Some? ==> s.ctxt.Some?) && Switches(s, name, outcome, o, c)
    ensures var n, r := NodeAt(s.desktop, p), NodeAt(Select(s, name, outcome, answers).desktop, p);
            if n.None? then r.None?
            else r == Some(Node(n.value.visible,
              if n.value.visible && answers(p).Some? then Some(Data(o, c, answers(p).value))
              else if s.ops.Some? && (if p.list.Popups? then s.ops.value.purgesPpp else s.ops.value.purgesWin) then None
              else n.value.priv))
  {
    hide Switch, Select, Switches;
    SelectionIsSwitch(s, name, outcome, answers, o, c);
    SwitchAt(s, o, c, answers, p);
  }

  /** A selection that switches calls the new compositor's `on_showing` exactly once for each
      visible node, and for no other. */
  lemma SelectionShowsOnce(s: State, name: Option<string>, outcome: Option<Ctxt>, answers: Answers, o: Ops, c: Ctxt, p: Place)
    requires (s.ops.Some? ==> s.ctxt.Some?) && Switches(s, name, outcome, o, c)
    ensures Occurrences(Calls(s, Select(s, name, outcome, answers)), Shown(o, c, p))
         == if NodeAt(s.desktop, p).Some? && NodeAt(s.desktop, p).value.visible then 1 else 0
  {
    hide Select, Switches, Occurrences, SwitchCalls;
    CallsOfSelection(s, name, outcome, answers, o, c);
    ShownOnce(s, o, c, answers, p);
  }

  /** A selection that switches hands each node's data back to the old compositor exactly
      once, if that has an operation to take it. */
  lemma SelectionPurgesOnce(s: State, name: Option<string>, outcome: Option<Ctxt>, answers: Answers, o: Ops, c: Ctxt, p: Place, data: Data)
    requires s.ops.Some? && s.ctxt.Some? && Switches(s, name, outcome, o, c)
    ensures Occurrences(Calls(s, Select(s, name, outcome, answers)), Purged(s.ops.value, s.ctxt.value, p, data))
         == if NodeAt(s.desktop, p).Some? && NodeAt(s.desktop, p).value.priv == Some(data)
               && (if p.list.Popups? then s.ops.value.purgesPpp else s.ops.value.purgesWin) then 1 else 0
  {
    hide Select, Switches, Occurrences, SwitchCalls;
    CallsOfSelection(s, name, outcome, answers, o, c);
    PurgedOnce(s, o, c, answers, p, data);
  }

  /** It terminates the old context exactly once. */
  lemma SelectionTerminatesOnce(s: State, name: Option<string>, outcome: Option<Ctxt>, answers: Answers, o: Ops, c: Ctxt, e: Event)
    requires (s.ops.Some? ==> s.ctxt.Some?) && Switches(s, name, outcome, o, c) && e.Terminated?
    ensures Occurrences(Calls(s, Select(s, name, outcome, answers)), e)
         == if s.ops == Some(e.ops) && s.ctxt == Some(e.ctxt) then 1 else 0
  {
    hide Select, Switches, Occurrences, SwitchCalls, PurgeDesktopLog, ShowDesktopLog, AfterLeave;
    CallsOfSelection(s, name, outcome, answers, o, c);
    CallsOfSwitch(s, o, c, answers);
    var first, shows := [Initialized(o, c)], ShowDesktopLog(AfterLeave(s), o, c);
    OneMoreOccurrence(first + Leave(s) + shows, Refreshed(o, c), e);
    OccurrencesConcat(first + Leave(s), shows, e);
    OccurrencesConcat(first, Leave(s), e);
    OccurrencesOne(Initialized(o, c), e);
    DesktopShows(AfterLeave(s), o, c);
    NoOccurrence(shows, e);
    if s.ops.Some? {
      var purges := PurgeDesktopLog(s.desktop, s.ops.value, s.ctxt.value);
      DesktopPurges(s.desktop, s.ops.value, s.ctxt.value);
      NoOccurrence(purges, e);
      OneMoreOccurrence(purges, Terminated(s.ops.value, s.ctxt.value), e);
    }
  }

  /** Its calls come in this order: initialise, purge, terminate, show the pop-ups, show the
      windows, refresh. */
  lemma SelectionInOrder(s: State, name: Option<string>, outcome: Option<Ctxt>, answers: Answers, o: Ops, c: Ctxt, i: nat, j: nat)
    requires (s.ops.Some? ==> s.ctxt.Some?) && Switches(s, name, outcome, o, c)
    requires i < j < |Calls(s, Select(s, name, outcome, answers))|
    ensures var calls := Calls(s, Select(s, name, outcome, answers)); Phase(calls[i]) <= Phase(calls[j])
  {
    hide Select, Switches, SwitchCalls;
    CallsOfSelection(s, name, outcome, answers, o, c);
    SwitchInOrder(s, o, c, answers, i, j);
  }

  /** A name of at most fifteen characters that no slot has yet is registered for its
      operations as long as there is a free slot, and other names keep theirs. */
  lemma RegisteredIsFound(s: State, name: string, ops: Ops, other: string, o: Ops)
    requires 0 < |name| <= 15 && other != "" && (forall i :: 0 <= i < |s.slots| ==> s.slots[i].name != name)
    ensures var (r, done) := Register(s, Some(name), Some(ops));
            && (done <==> exists i :: 0 <= i < |s.slots| && s.slots[i].name == "")
            && (done ==> Names(r.slots, Some(name), ops))
            && (other != name ==> (Names(r.slots, Some(other), o) <==> Names(s.slots, Some(other), o)))
  {
    var i := FindName(s.slots, "");
    var (r, done) := Register(s, Some(name), Some(ops));
    if done {
      assert FirstWith(r.slots, name, i);
      if other != name {
        forall k ensures FirstWith(r.slots, other, k) <==> FirstWith(s.slots, other, k) {
          StillFirst(s.slots, i, Slot(name, Some(ops)), other, k);
        }
      }
    }
  }

  lemma StillFirst(slots: seq<Slot>, i: nat, slot: Slot, other: string, k: int)
    requires i < |slots| && slots[i].name != other && slot.name != other
    ensures FirstWith(slots[i := slot], other, k) <==> FirstWith(slots, other, k)
  {
    var r := slots[i := slot];
    if FirstWith(r, other, k) {
      forall j | 0 <= j < k ensures slots[j].name != other { assert r[j].name != other; }
    }
    if FirstWith(slots, other, k) {
      forall j | 0 <= j < k ensures r[j].name != other { assert slots[j].name != other; }
    }
  }
}
