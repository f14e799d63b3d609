/** One z-order node and the list of dirty rectangles of its surface: the server locks,
    tests, unlocks and acknowledges it while clients draw on it. */
module DirtySurface {

  /** `dirty_age` and `changes` are 32 bits wide. */
  const AGES := 0x1_0000_0000

  /** How far the server has come with the node in the current pass. `Owing` is the
      time between the unlock that asked for a reset and the reset. */
  datatype Stage = Idle | Locked | Tested | Owing

  /** The surface: `drawn` counts every drawing on it, `listed` the latest of them that
      its list still holds, `readLocked` says that the server holds its file lock.
      Then the fields of the node. Then history: `seen` drawings had been made when
      `changes` was stored, `tested` when the ages were last compared, and `upTo` when a
      merge last ran; `missed` were absent from the list at the merge that should have
      covered them, and `notices` are the ages that were sent to the client. */
  datatype Node = Node(
    shared: bool, drawn: nat, listed: nat, readLocked: bool,
    cli: nat, hwnd: nat, lockCount: nat, changes: nat, dirtyAge: nat, nrDirtyRcs: nat,
    stage: Stage, seen: nat, tested: nat, upTo: nat, missed: nat, merges: nat, acks: nat, notices: seq<nat>)

  datatype Event = Lock | Test | Unlock | Ack | Draw | Clear

  function Age(drawings: nat): nat {
    drawings % AGES
  }

  // ---------- the steps ----------

  function LockNode(n: Node): Node {
    var m := if n.lockCount == 0
      then n.(readLocked := n.shared || n.readLocked, dirtyAge := Age(n.drawn), nrDirtyRcs := n.listed)
      else n;
    m.(lockCount := m.lockCount + 1, stage := Locked)
  }

  /** Merges if the age is not the one stored last. */
  function TestNode(n: Node): Node {
    var m := if Age(n.drawn) != n.changes
      then n.(merges := n.merges + 1, missed := n.missed + Unlisted(n), upTo := n.drawn)
      else n;
    m.(stage := Tested, tested := n.drawn)
  }

  /** Drawings since the last merge that the list, as copied by the lock, lacks. */
  function Unlisted(n: Node): nat {
    if n.drawn > n.upTo + n.nrDirtyRcs then n.drawn - n.upTo - n.nrDirtyRcs else 0
  }

  predicate NeedsReset(n: Node) {
    n.lockCount == 1 && n.changes != Age(n.drawn)
  }

  function UnlockNode(n: Node): Node {
    var m := if NeedsReset(n) then n.(changes := Age(n.drawn), seen := n.drawn) else n;
    var u := if n.lockCount == 1
      then m.(readLocked := n.readLocked && !n.shared, dirtyAge := 0, nrDirtyRcs := 0)
      else m;
    var d := if n.lockCount > 0 then u.(lockCount := n.lockCount - 1) else u;
    d.(stage := if NeedsReset(n) then Owing else Idle)
  }

  predicate ServerResets(n: Node, slot: nat) {
    n.cli == 0 || slot == 0
  }

  function AckNode(n: Node, slot: nat): Node {
    var m := if ServerResets(n, slot) then n.(listed := 0)
      else if n.hwnd != 0 then n.(notices := n.notices + [n.changes])
      else n;
    m.(acks := n.acks + 1, stage := Idle)
  }

  function DrawOn(n: Node): Node {
    n.(drawn := n.drawn + 1, listed := n.listed + 1)
  }

  /** A client drops rectangles that an acknowledgement has covered. */
  function ClearNode(n: Node): Node {
    n.(listed := if n.seen + n.listed <= n.drawn then n.listed else if n.seen <= n.drawn then n.drawn - n.seen else 0)
  }

  function Step(n: Node, slot: nat, e: Event): Node {
    match e
    case Lock => LockNode(n)
    case Test => TestNode(n)
    case Unlock => UnlockNode(n)
    case Ack => AckNode(n, slot)
    case Draw => DrawOn(n)
    case Clear => ClearNode(n)
  }

  /** A shared surface is written under its file lock; any other belongs to the server
      itself, which does not draw in the middle of handling its node. */
  predicate Writable(n: Node) {
    if n.shared then !n.readLocked else n.stage.Idle?
  }

  predicate Enabled(n: Node, slot: nat, e: Event) {
    match e
    case Lock => n.stage.Idle?
    case Test => n.stage.Locked?
    case Unlock => n.stage.Tested?
    case Ack => n.stage.Owing?
    case Draw => Writable(n)
    case Clear => Writable(n) && !ServerResets(n, slot)
  }

  function Run(n: Node, slot: nat, es: seq<Event>): Node {
    if es == [] then n else Step(Run(n, slot, es[..|es| - 1]), slot, es[|es| - 1])
  }

  /** Every step is enabled where it is taken. */
  predicate Legal(n: Node, slot: nat, es: seq<Event>) {
    es == [] ||
    (Legal(n, slot, es[..|es| - 1]) && Enabled(Run(n, slot, es[..|es| - 1]), slot, es[|es| - 1]))
  }

  // ---------- the counted lock ----------

  /** How often the pass itself holds the node's lock. */
  function Held(n: Node): nat {
    if n.stage.Locked? || n.stage.Tested? then 1 else 0
  }

  /** The count includes the pass's own lock, and the file lock of a shared surface is
      held exactly while the count is positive. */
  predicate Balanced(n: Node) {
    Held(n) <= n.lockCount && n.readLocked == (n.shared && n.lockCount > 0)
  }

  lemma StepKeepsBalance(n: Node, slot: nat, e: Event)
    requires Balanced(n) && Enabled(n, slot, e)
    ensures Balanced(Step(n, slot, e)) && Step(n, slot, e).shared == n.shared
    ensures Step(n, slot, e).lockCount - Held(Step(n, slot, e)) == n.lockCount - Held(n)
  {
    hide Age;
  }

  /** Whatever the count was before, it is one more while the pass holds the node, and
      restored after it. */
  lemma {:induction false} RunKeepsBalance(n: Node, slot: nat, es: seq<Event>)
    requires Balanced(n) && Legal(n, slot, es)
    ensures Balanced(Run(n, slot, es)) && Run(n, slot, es).shared == n.shared
    ensures Run(n, slot, es).lockCount - Held(Run(n, slot, es)) == n.lockCount - Held(n)
  {
    if es != [] {
      hide Step, Enabled, Balanced, Held;
      var init := es[..|es| - 1];
      RunKeepsBalance(n, slot, init);
      StepKeepsBalance(Run(n, slot, init), slot, es[|es| - 1]);
    }
  }

  /** Nothing of what an acknowledgement changes has changed. */
  predicate Unacknowledged(n: Node, r: Node) {
    !r.stage.Owing? && r.acks == n.acks && r.changes == n.changes && r.seen == n.seen && r.notices == n.notices
  }

  lemma StepUnderLock(n: Node, m: Node, slot: nat, e: Event)
    requires Balanced(m) && m.lockCount > Held(m) && Unacknowledged(n, m) && Enabled(m, slot, e)
    ensures Unacknowledged(n, Step(m, slot, e))
  {
    hide Age;
  }

  /** While somebody else holds the lock too, a pass stores no age and acknowledges no
      merge. */
  lemma {:induction false} NeverAcknowledgedUnderLock(n: Node, slot: nat, es: seq<Event>)
    requires Balanced(n) && n.lockCount > Held(n) && !n.stage.Owing? && Legal(n, slot, es)
    ensures Unacknowledged(n, Run(n, slot, es))
  {
    if es != [] {
      hide Step, Enabled, Balanced, Held, Unacknowledged;
      var init := es[..|es| - 1];
      RunKeepsBalance(n, slot, init);
      NeverAcknowledgedUnderLock(n, slot, init);
      StepUnderLock(n, Run(n, slot, init), slot, es[|es| - 1]);
    } else {
      hide Balanced, Held;
    }
  }

  /** So a pass over a node that starts with a positive count and a changed age merges
      it without acknowledging it. */
  lemma MergedUnderLock(n: Node, slot: nat)
    requires Balanced(n) && n.lockCount > 0 && n.stage.Idle? && n.changes != Age(n.drawn)
    ensures Legal(n, slot, ONE_PASS)
    ensures Run(n, slot, ONE_PASS).merges == n.merges + 1 && Run(n, slot, ONE_PASS).acks == n.acks
  {
    hide Run, Legal, Age;
    NoStep(n, slot);
    ExtendTo(n, slot, ONE_PASS, 0);
    ExtendTo(n, slot, ONE_PASS, 1);
    ExtendTo(n, slot, ONE_PASS, 2);
    assert ONE_PASS[..3] == ONE_PASS;
  }

  // ---------- the invariant ----------

  /** Between passes nobody holds the lock; in a pass the lock has copied the age and
      the size of the list. */
  predicate HeldOk(n: Node) {
    && n.lockCount == Held(n)
    && n.dirtyAge == (if Held(n) == 1 then Age(n.drawn) else 0)
    && n.nrDirtyRcs == (if Held(n) == 1 then n.listed else 0)
  }

  /** A merge that has run and is not acknowledged. */
  predicate Pending(n: Node) {
    n.stage.Owing? || (n.stage.Tested? && n.changes != Age(n.drawn))
  }

  predicate NodeOk(n: Node) {
    && Balanced(n)
    && HeldOk(n)
    && n.changes == Age(n.seen)
    && n.seen <= n.upTo <= n.drawn
    && n.upTo == (if n.stage.Tested? && Pending(n) then n.drawn else n.seen)
    && n.merges == n.acks + (if Pending(n) then 1 else 0)
  }

  /** Nothing drawn, nothing stored. */
  predicate Fresh(n: Node) {
    n == Node(n.shared, 0, 0, false, n.cli, n.hwnd, 0, 0, 0, 0, Idle, 0, 0, 0, 0, 0, 0, [])
  }

  lemma StepKeepsNode(n: Node, slot: nat, e: Event)
    requires NodeOk(n) && Enabled(n, slot, e)
    ensures NodeOk(Step(n, slot, e))
  {}

  lemma {:induction false} RunKeepsNode(n: Node, slot: nat, es: seq<Event>)
    requires NodeOk(n) && Legal(n, slot, es)
    ensures NodeOk(Run(n, slot, es))
  {
    if es != [] {
      hide Step, Enabled, NodeOk;
      var init := es[..|es| - 1];
      RunKeepsNode(n, slot, init);
      StepKeepsNode(Run(n, slot, init), slot, es[|es| - 1]);
    }
  }

  /** A reset by the server empties the list. Otherwise the list is left to the client, which
      is told the stored age if it has a window. */
  lemma ResetByFields(n: Node, slot: nat)
    ensures var r := Step(n, slot, Ack);
            && r.listed == (if n.cli == 0 || slot == 0 then 0 else n.listed)
            && r.notices == n.notices + (if n.cli != 0 && slot != 0 && n.hwnd != 0 then [n.changes] else [])
            && r.drawn == n.drawn && r.changes == n.changes && r.lockCount == n.lockCount
  {
    assert n.notices + [] == n.notices;
  }

  // ---------- what clients are told ----------

  /** A client with a window is told once for each acknowledgement, and last of all the
      stored age; no other node sends anything. */
  predicate NoticesOk(n: Node, slot: nat) {
    && |n.notices| == (if ServerResets(n, slot) || n.hwnd == 0 then 0 else n.acks)
    && (n.notices != [] && !n.stage.Owing? ==> n.notices[|n.notices| - 1] == n.changes)
  }

  lemma StepKeepsNotices(n: Node, slot: nat, e: Event)
    requires NodeOk(n) && NoticesOk(n, slot) && Enabled(n, slot, e)
    ensures NoticesOk(Step(n, slot, e), slot)
  {
    hide Age;
  }

  lemma {:induction false} RunKeepsNotices(n: Node, slot: nat, es: seq<Event>)
    requires NodeOk(n) && NoticesOk(n, slot) && Legal(n, slot, es)
    ensures NoticesOk(Run(n, slot, es), slot)
  {
    if es != [] {
      hide Step, Enabled, NodeOk, NoticesOk;
      var init := es[..|es| - 1];
      RunKeepsNode(n, slot, init);
      RunKeepsNotices(n, slot, init);
      StepKeepsNotices(Run(n, slot, init), slot, es[|es| - 1]);
    }
  }

  // ---------- no draw is lost ----------

  /** In every reachable state the stored age equals the surface's exactly when a
      multiple of 2^32 drawings came after it was stored, and equal ages mean that every
      drawing has been merged exactly when fewer than 2^32 did. */
  lemma MatchingAgeMeansMerged(n: Node, slot: nat, es: seq<Event>)
    requires NodeOk(n) && Legal(n, slot, es)
    ensures var r := Run(n, slot, es);
            && r.seen <= r.drawn
            && (r.changes == Age(r.drawn) <==> (r.drawn - r.seen) % AGES == 0)
            && (r.changes == Age(r.drawn) ==> (r.upTo == r.drawn <==> r.drawn - r.seen < AGES))
  {
    hide Run, Legal, Age, Step;
    RunKeepsNode(n, slot, es);
    SameAge(Run(n, slot, es).seen, Run(n, slot, es).drawn);
  }

  lemma SameAge(a: nat, b: nat)
    requires a <= b
    ensures Age(a) == Age(b) <==> (b - a) % AGES == 0
    ensures b - a < AGES && Age(a) == Age(b) ==> a == b
  {}

  function Draws(k: nat): (es: seq<Event>)
    ensures |es| == k
  {
    seq(k, _ => Draw)
  }

  lemma {:induction false} OnlyDraws(n: Node, slot: nat, k: nat)
    requires Writable(n)
    ensures Legal(n, slot, Draws(k))
    ensures Run(n, slot, Draws(k)) == n.(drawn := n.drawn + k, listed := n.listed + k)
  {
    if k != 0 {
      OnlyDraws(n, slot, k - 1);
      assert Draws(k)[..k - 1] == Draws(k - 1);
    }
  }

  /** The bound is needed: 2^32 drawings in a row bring the age back to the stored one,
      and none of them has been merged. */
  lemma AgeWrapsAround(n: Node, slot: nat)
    requires NodeOk(n) && n.stage.Idle? && n.drawn == n.seen
    ensures var r := Run(n, slot, Draws(AGES));
            Legal(n, slot, Draws(AGES)) && r.changes == Age(r.drawn) && r.upTo + AGES == r.drawn
  {
    OnlyDraws(n, slot, AGES);
  }

  /** The events of the server that a pass prescribes. */
  function Prescribed(es: seq<Event>): seq<Event> {
    if es == [] then []
    else
      var e := es[|es| - 1];
      if e.Lock? || e.Test? || e.Unlock? then Prescribed(es[..|es| - 1]) + [e] else Prescribed(es[..|es| - 1])
  }

  const ONE_PASS := [Lock, Test, Unlock]

  ghost predicate Progress(n: Node, r: Node, done: nat) {
    && r.drawn >= n.drawn
    && r.stage == (if done == 0 then Idle else if done == 1 then Locked else if done == 2 then Tested else r.stage)
    && (done == 3 ==> r.stage.Idle? || r.stage.Owing?)
    && (done <= 2 ==> r.seen == n.seen && r.changes == n.changes && r.acks == n.acks)
    && (done < 2 ==> r.merges == n.merges && r.upTo == n.upTo && r.missed == n.missed && Lost(r) == Lost(n))
    && (2 <= done ==> Covered(n, r))
  }

  /** Drawings that no merge has covered and whose rectangles the list has lost. */
  function Lost(n: Node): nat {
    if n.drawn > n.upTo + n.listed then n.drawn - n.upTo - n.listed else 0
  }

  /** The merge is skipped exactly if the drawings from the stored age to the test are a
      multiple of 2^32. */
  predicate Skipped(n: Node, r: Node) {
    (r.tested - n.seen) % AGES == 0
  }

  /** What the test achieved. It came after the drawings of `n`. Unless it skipped the
      merge, everything drawn until then is merged; the merge was not given the
      rectangles that `n` had lost already, but all later ones. */
  predicate Covered(n: Node, r: Node) {
    && n.drawn <= r.tested <= r.drawn
    && r.merges == n.merges + (if Skipped(n, r) then 0 else 1)
    && r.upTo == (if Skipped(n, r) then n.upTo else r.tested)
    && r.missed == n.missed + (if Skipped(n, r) then 0 else Lost(n))
  }

  lemma StepProgress(n: Node, m: Node, slot: nat, e: Event, done: nat)
    requires NodeOk(n) && NodeOk(m) && Enabled(m, slot, e) && done <= 3 && Progress(n, m, done)
    requires e.Lock? ==> done == 0
    requires e.Test? ==> done == 1
    requires e.Unlock? ==> done == 2
    ensures Progress(n, Step(m, slot, e), if e.Lock? || e.Test? || e.Unlock? then done + 1 else done)
  {
    hide Age;
    if e.Test? {
      TestSkips(n, m);
    }
  }

  lemma TestSkips(n: Node, m: Node)
    requires NodeOk(n) && NodeOk(m) && m.stage.Locked? && m.seen == n.seen
    ensures Age(m.drawn) == m.changes <==> (m.drawn - n.seen) % AGES == 0
  {
    SameAge(m.seen, m.drawn);
  }

  /** A pass over one node, with anything that clients do at any moment between its
      steps. */
  lemma {:induction false} PassOverNode(n: Node, slot: nat, es: seq<Event>)
    requires NodeOk(n) && n.stage.Idle? && Legal(n, slot, es)
    requires Prescribed(es) <= ONE_PASS
    ensures NodeOk(Run(n, slot, es)) && Progress(n, Run(n, slot, es), |Prescribed(es)|)
  {
    RunKeepsNode(n, slot, es);
    if es != [] {
      hide Step, Enabled, Progress, NodeOk;
      var init, e := es[..|es| - 1], es[|es| - 1];
      RunKeepsNode(n, slot, init);
      PassOverNode(n, slot, init);
      StepProgress(n, Run(n, slot, init), slot, e, |Prescribed(init)|);
    } else {
      NoProgress(n);
    }
  }

  lemma NoProgress(n: Node)
    requires n.stage.Idle?
    ensures Progress(n, n, 0)
  {}

  lemma {:induction false} LegalAt(n: Node, slot: nat, es: seq<Event>, k: nat)
    requires Legal(n, slot, es) && k < |es|
    ensures Legal(n, slot, es[..k]) && Enabled(Run(n, slot, es[..k]), slot, es[k])
    ensures Run(n, slot, es[..k + 1]) == Step(Run(n, slot, es[..k]), slot, es[k])
  {
    hide Step, Enabled;
    assert es[..k + 1][..k] == es[..k];
    if k + 1 < |es| {
      var init := es[..|es| - 1];
      assert init[..k] == es[..k];
      LegalAt(n, slot, init, k);
    }
  }

  lemma HeldStaysPut(n: Node, slot: nat, e: Event)
    requires NodeOk(n) && Enabled(n, slot, e)
    ensures n.stage.Locked? ==> e.Test?
    ensures n.stage.Tested? ==> e.Unlock?
  {}

  /** Nothing comes between a lock, its test and its unlock, so the age that the merge
      test sees is the age that the unlock leaves in `changes`. */
  lemma TestedAgeIsStored(n: Node, slot: nat, es: seq<Event>, k: nat)
    requires NodeOk(n) && Legal(n, slot, es) && k + 2 < |es| && es[k].Lock?
    ensures es[k + 1].Test? && es[k + 2].Unlock?
    ensures Run(n, slot, es[..k + 3]).changes == Age(Run(n, slot, es[..k + 1]).drawn)
  {
    LegalAt(n, slot, es, k);
    LegalAt(n, slot, es, k + 1);
    LegalAt(n, slot, es, k + 2);
    RunKeepsNode(n, slot, es[..k]);
    RunKeepsNode(n, slot, es[..k + 1]);
    HeldStaysPut(Run(n, slot, es[..k + 1]), slot, es[k + 1]);
    RunKeepsNode(n, slot, es[..k + 2]);
    HeldStaysPut(Run(n, slot, es[..k + 2]), slot, es[k + 2]);
  }

  // ---------- which rectangles a merge can miss ----------

  /** The server empties the list itself, and other processes draw on the surface. */
  predicate Racy(n: Node, slot: nat) {
    n.shared && ServerResets(n, slot)
  }

  predicate ListOk(n: Node) {
    && n.missed == 0
    && n.drawn <= n.upTo + n.listed
    && (n.stage.Owing? && !n.shared ==> n.drawn == n.upTo)
  }

  lemma StepKeepsList(n: Node, slot: nat, e: Event)
    requires NodeOk(n) && ListOk(n) && !Racy(n, slot) && Enabled(n, slot, e)
    ensures ListOk(Step(n, slot, e)) && !Racy(Step(n, slot, e), slot)
  {}

  lemma {:induction false} RunKeepsList(n: Node, slot: nat, es: seq<Event>)
    requires NodeOk(n) && ListOk(n) && !Racy(n, slot) && Legal(n, slot, es)
    ensures ListOk(Run(n, slot, es)) && !Racy(Run(n, slot, es), slot)
  {
    if es != [] {
      hide Step, Enabled, ListOk, NodeOk, Racy;
      var init := es[..|es| - 1];
      RunKeepsNode(n, slot, init);
      RunKeepsList(n, slot, init);
      StepKeepsList(Run(n, slot, init), slot, es[|es| - 1]);
    }
  }

  lemma Extend(n: Node, slot: nat, es: seq<Event>, e: Event)
    requires Legal(n, slot, es) && Enabled(Run(n, slot, es), slot, e)
    ensures Legal(n, slot, es + [e]) && Run(n, slot, es + [e]) == Step(Run(n, slot, es), slot, e)
  {
    hide Step, Enabled;
    assert (es + [e])[..|es + [e]| - 1] == es;
  }

  lemma NoStep(n: Node, slot: nat)
    ensures Legal(n, slot, []) && Run(n, slot, []) == n
  {}

  /** A drawing between the unlock and the reset is thrown away with the list. */
  const RACE := [Draw, Lock, Test, Unlock, Draw, Ack, Lock, Test, Unlock]

  lemma ExtendTo(n: Node, slot: nat, es: seq<Event>, k: nat)
    requires k < |es| && Legal(n, slot, es[..k]) && Enabled(Run(n, slot, es[..k]), slot, es[k])
    ensures Legal(n, slot, es[..k + 1]) && Run(n, slot, es[..k + 1]) == Step(Run(n, slot, es[..k]), slot, es[k])
  {
    hide Step, Enabled, Run, Legal;
    Extend(n, slot, es[..k], es[k]);
    assert es[..k] + [es[k]] == es[..k + 1];
  }

  lemma RacyCanMiss(n: Node, slot: nat)
    requires Fresh(n) && Racy(n, slot)
    ensures Legal(n, slot, RACE) && Run(n, slot, RACE).missed > 0
  {
    hide Run, Legal;
    NoStep(n, slot);
    ExtendTo(n, slot, RACE, 0);
    ExtendTo(n, slot, RACE, 1);
    ExtendTo(n, slot, RACE, 2);
    ExtendTo(n, slot, RACE, 3);
    ExtendTo(n, slot, RACE, 4);
    ExtendTo(n, slot, RACE, 5);
    ExtendTo(n, slot, RACE, 6);
    ExtendTo(n, slot, RACE, 7);
    ExtendTo(n, slot, RACE, 8);
    assert RACE[..9] == RACE;
  }

  /** Two passes over a node on which nobody draws. */
  lemma QuietPasses(n: Node, slot: nat)
    requires Fresh(n)
    ensures Legal(n, slot, ONE_PASS + ONE_PASS) && Legal(n, slot, [])
  {
    hide Run, Legal;
    var es := ONE_PASS + ONE_PASS;
    NoStep(n, slot);
    ExtendTo(n, slot, es, 0);
    ExtendTo(n, slot, es, 1);
    ExtendTo(n, slot, es, 2);
    ExtendTo(n, slot, es, 3);
    ExtendTo(n, slot, es, 4);
    ExtendTo(n, slot, es, 5);
    assert es[..6] == es;
  }

  /** Rectangles that no merge was given exist in some run exactly if the surface is
      shared and the server, not a client, resets its list. */
  lemma MissesIffRacy(n: Node, slot: nat)
    requires Fresh(n)
    ensures (exists es :: Legal(n, slot, es) && Run(n, slot, es).missed > 0) <==> n.shared && (n.cli == 0 || slot == 0)
  {
    if Racy(n, slot) {
      RacyCanMiss(n, slot);
    } else {
      forall es | Legal(n, slot, es) ensures Run(n, slot, es).missed == 0 {
        RunKeepsList(n, slot, es);
      }
    }
  }

  // ---------- how many rectangles a run loses ----------

  /** What a reset loses: the drawings since the unlock that asked for it. */
  function ResetLoss(n: Node, slot: nat, e: Event): nat {
    if e.Ack? && ServerResets(n, slot) && n.drawn > n.seen then n.drawn - n.seen else 0
  }

  function Losses(n: Node, slot: nat, es: seq<Event>): nat {
    if es == [] then 0
    else
      var init := es[..|es| - 1];
      Losses(n, slot, init) + ResetLoss(Run(n, slot, init), slot, es[|es| - 1])
  }

  /** A merge that waits for its reset was given all that the list held. */
  predicate LossOk(n: Node) {
    Pending(n) ==> Lost(n) == 0
  }

  /** Only a reset loses rectangles, and only a merge finds out. */
  lemma StepLoses(n: Node, slot: nat, e: Event)
    requires NodeOk(n) && LossOk(n) && Enabled(n, slot, e)
    ensures LossOk(Step(n, slot, e))
    ensures Step(n, slot, e).missed + Lost(Step(n, slot, e)) == n.missed + Lost(n) + ResetLoss(n, slot, e)
    ensures !e.Test? && !(e.Ack? && ServerResets(n, slot)) ==> Lost(Step(n, slot, e)) == Lost(n)
    ensures e.Test? ==> Lost(Step(n, slot, e)) == if Step(n, slot, e).merges > n.merges then 0 else Lost(n)
  {}

  /** Exactly the drawings between an unlock and its reset are lost: each of them has been
      missed by a merge or will be missed by the next one. */
  lemma {:induction false} LossesAreConserved(n: Node, slot: nat, es: seq<Event>)
    requires NodeOk(n) && LossOk(n) && Legal(n, slot, es)
    ensures LossOk(Run(n, slot, es))
    ensures Run(n, slot, es).missed + Lost(Run(n, slot, es)) == n.missed + Lost(n) + Losses(n, slot, es)
  {
    if es != [] {
      hide Step, Enabled, NodeOk, LossOk, Lost, ResetLoss;
      var init := es[..|es| - 1];
      RunKeepsNode(n, slot, init);
      LossesAreConserved(n, slot, init);
      StepLoses(Run(n, slot, init), slot, es[|es| - 1]);
    }
  }
}
