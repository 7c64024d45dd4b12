/** Swap-chain processors in the display driver (driver/src/Driver.cpp): who owns them, when
    their threads delete the chain, and when their memory is freed. Calls of AssignSwapChain and
    UnassignSwapChain, the processors' threads and the teardown of the device context interleave
    at the steps below. */
module SwapChain {
  import RunCore

  type Monitor = nat
  type Chain = nat

  /** A processor's thread: in RunCore, or just out of it; after the chain was deleted and the
      handle cleared; returned. `NotCreated` when CreateThread failed. */
  datatype Thread = NotCreated | Running(core: RunCore.Core) | ChainDeleted | Returned

  /** Who holds the processor: the AssignSwapChain call that made it; a monitor's slot in the map;
      a local of the call (or the teardown) that took it out, whose destructor runs; nobody. */
  datatype Holder = InCall(m: Monitor) | InSlot(m: Monitor) | InDestructor(signalled: bool) | Freed

  datatype Processor = Processor(chain: Chain, thread: Thread, holder: Holder)

  /** All processors ever made, the map of slots, and the record: the chains passed in (`refused`,
      or given to the processor `owner` names) and every WdfObjectDelete so far. */
  datatype World = World(
    procs: seq<Processor>, slots: map<Monitor, nat>, owner: map<Chain, nat>, refused: set<Chain>,
    deleted: multiset<Chain>, contextAlive: bool)

  datatype Action =
    | AssignRefused(c: Chain)                                  // no device: the chain is deleted at once
    | AssignMake(m: Monitor, c: Chain, t: Thread)              // the constructor starts the thread
    | AssignSwap(p: nat)                                       // the critical section of AssignSwapChain
    | Unassign(m: Monitor)                                     // the critical section of UnassignSwapChain
    | TeardownReset(m: Monitor)                                // the context's destructor takes one out
    | TeardownEnd
    | DestructorSignals(p: nat)
    | DestructorFrees(p: nat)                                  // the wait for the thread is over
    | FrameArrives(p: nat)                                     // the system sets the new-frame event
    | ThreadSteps(p: nat, s: RunCore.Step)
    | ThreadDeletesChain(p: nat)
    | ThreadReturns(p: nat)

  function Start(): World { World([], map[], map[], {}, multiset{}, true) }

  predicate HasProcessor(w: World, p: nat) { p < |w.procs| }

  predicate Handed(w: World, c: Chain) { c in w.owner || c in w.refused }

  /** CreateThread may fail, and either event may be missing. */
  predicate NewThread(t: Thread) {
    t.NotCreated? || (t.Running? && t.core == RunCore.Begin(t.core.frameEvent, t.core.stopEvent))
  }

  predicate NoCallInFlight(w: World) {
    forall p :: 0 <= p < |w.procs| ==> !w.procs[p].holder.InCall?
  }

  /** When a step can be taken. The system passes each chain in once; a wait for a thread ends
      when the thread has returned, or at once when there is none; the context is destroyed
      with no call of its member functions in flight. */
  predicate Enabled(w: World, a: Action) {
    match a
    case AssignRefused(c) => w.contextAlive && !Handed(w, c)
    case AssignMake(m, c, t) => w.contextAlive && !Handed(w, c) && NewThread(t)
    case AssignSwap(p) => w.contextAlive && HasProcessor(w, p) && w.procs[p].holder.InCall?
    case Unassign(m) => w.contextAlive
    case TeardownReset(m) => w.contextAlive && m in w.slots
    case TeardownEnd => w.contextAlive && w.slots == map[] && NoCallInFlight(w)
    case DestructorSignals(p) => HasProcessor(w, p) && w.procs[p].holder == InDestructor(false)
    case DestructorFrees(p) =>
      && HasProcessor(w, p) && w.procs[p].holder == InDestructor(true)
      && (w.procs[p].thread.Returned? || w.procs[p].thread.NotCreated?)
    case FrameArrives(p) => HasProcessor(w, p) && w.procs[p].thread.Running?
    case ThreadSteps(p, s) => HasProcessor(w, p) && w.procs[p].thread.Running? && RunCore.Can(w.procs[p].thread.core, s)
    case ThreadDeletesChain(p) => HasProcessor(w, p) && w.procs[p].thread.Running? && w.procs[p].thread.core.place.Left?
    case ThreadReturns(p) => HasProcessor(w, p) && w.procs[p].thread.ChainDeleted?
  }

  function Hold(w: World, p: nat, h: Holder): seq<Processor>
    requires p < |w.procs|
  {
    w.procs[p := w.procs[p].(holder := h)]
  }

  function Goes(w: World, p: nat, t: Thread): seq<Processor>
    requires p < |w.procs|
  {
    w.procs[p := w.procs[p].(thread := t)]
  }

  /** The terminate event is set, for a thread that may still wait for it. */
  function Signal(t: Thread): Thread {
    if t.Running? then Running(RunCore.Stop(t.core)) else t
  }

  /** A monitor's processor, if any, moves from its slot into a local about to be destroyed. */
  function TakeOut(w: World, m: Monitor): World {
    if m in w.slots && w.slots[m] < |w.procs| then
      w.(procs := Hold(w, w.slots[m], InDestructor(false)), slots := w.slots - {m})
    else w
  }

  function PutIn(w: World, p: nat, m: Monitor): World
    requires p < |w.procs|
  {
    w.(procs := Hold(w, p, InSlot(m)), slots := w.slots[m := p])
  }

  function Act(w: World, a: Action): World
    requires Enabled(w, a)
  {
    match a
    case AssignRefused(c) => w.(refused := w.refused + {c}, deleted := w.deleted + multiset{c})
    case AssignMake(m, c, t) =>
      w.(procs := w.procs + [Processor(c, t, InCall(m))], owner := w.owner[c := |w.procs|])
    case AssignSwap(p) => PutIn(TakeOut(w, w.procs[p].holder.m), p, w.procs[p].holder.m)
    case Unassign(m) => TakeOut(w, m)
    case TeardownReset(m) => TakeOut(w, m)
    case TeardownEnd => w.(contextAlive := false)
    case DestructorSignals(p) => w.(procs := w.procs[p := Processor(w.procs[p].chain, Signal(w.procs[p].thread), InDestructor(true))])
    case DestructorFrees(p) => w.(procs := Hold(w, p, Freed))
    case FrameArrives(p) => w.(procs := Goes(w, p, Running(RunCore.FrameArrives(w.procs[p].thread.core))))
    case ThreadSteps(p, s) => w.(procs := Goes(w, p, Running(RunCore.Do(w.procs[p].thread.core, s))))
    case ThreadDeletesChain(p) =>
      w.(procs := Goes(w, p, ChainDeleted), deleted := w.deleted + multiset{w.procs[p].chain})
    case ThreadReturns(p) => w.(procs := Goes(w, p, Returned))
  }

  /** The state after any sequence of actions; one that is not enabled does not happen. */
  function After(acts: seq<Action>): World
    decreases |acts|
  {
    if acts == [] then Start()
    else
      var w, a := After(acts[..|acts| - 1]), acts[|acts| - 1];
      if Enabled(w, a) then Act(w, a) else w
  }

  // ----------------------------------------------------------------- the invariant

  predicate HasDeleted(p: Processor) {
    p.thread.ChainDeleted? || p.thread.Returned?
  }

  /** Map and processors agree: a slot holds exactly the processor that is in it. */
  ghost predicate SlotsAgree(w: World) {
    && (forall m :: m in w.slots ==> w.slots[m] < |w.procs| && w.procs[w.slots[m]].holder == InSlot(m))
    && (forall p :: 0 <= p < |w.procs| && w.procs[p].holder.InSlot? ==>
          w.procs[p].holder.m in w.slots && w.slots[w.procs[p].holder.m] == p)
  }

  ghost predicate FreedLast(w: World) {
    forall p :: 0 <= p < |w.procs| && w.procs[p].holder.Freed? ==>
      w.procs[p].thread.Returned? || w.procs[p].thread.NotCreated?
  }

  /** Chains are told apart, and each has been deleted as often as its processor's thread says. */
  ghost predicate ChainsTold(w: World) {
    && (forall p :: 0 <= p < |w.procs| ==> w.procs[p].chain in w.owner && w.owner[w.procs[p].chain] == p)
    && (forall c :: c in w.owner ==> OwnedChainTold(w, c))
    && (forall c :: c in w.refused ==> w.deleted[c] == 1)
    && (forall c :: !Handed(w, c) ==> w.deleted[c] == 0)
  }

  ghost predicate OwnedChainTold(w: World, c: Chain)
    requires c in w.owner
  {
    && c !in w.refused && w.owner[c] < |w.procs| && w.procs[w.owner[c]].chain == c
    && w.deleted[c] == if HasDeleted(w.procs[w.owner[c]]) then 1 else 0
  }

  ghost predicate Inv(w: World) {
    SlotsAgree(w) && FreedLast(w) && ChainsTold(w) && (!w.contextAlive ==> w.slots == map[] && NoCallInFlight(w))
  }

  lemma TakeOutKeepsSlots(w: World, m: Monitor)
    requires SlotsAgree(w)
    ensures var v := TakeOut(w, m);
            && SlotsAgree(v) && m !in v.slots && |v.procs| == |w.procs|
            && forall p :: 0 <= p < |w.procs| ==>
                 && v.procs[p].chain == w.procs[p].chain && v.procs[p].thread == w.procs[p].thread
                 && (v.procs[p].holder == w.procs[p].holder
                     || (w.procs[p].holder == InSlot(m) && v.procs[p].holder == InDestructor(false)))
  {
  }

  lemma PutInKeepsSlots(w: World, p: nat, m: Monitor)
    requires SlotsAgree(w) && p < |w.procs| && w.procs[p].holder == InCall(m) && m !in w.slots
    ensures SlotsAgree(PutIn(w, p, m))
  {
  }

  /** A step that changes one processor, in or out of no slot. */
  lemma OtherStepKeepsSlots(w: World, p: nat, x: Processor)
    requires SlotsAgree(w) && p < |w.procs|
    requires x.holder == w.procs[p].holder || (!x.holder.InSlot? && !w.procs[p].holder.InSlot?)
    ensures SlotsAgree(w.(procs := w.procs[p := x]))
  {
  }

  lemma SlotsKept(w: World, a: Action)
    requires SlotsAgree(w) && Enabled(w, a)
    ensures SlotsAgree(Act(w, a))
  {
    match a {
      case AssignRefused(c) =>
      case AssignMake(m, c, t) =>
      case AssignSwap(p) =>
        var m := w.procs[p].holder.m;
        TakeOutKeepsSlots(w, m);
        PutInKeepsSlots(TakeOut(w, m), p, m);
      case Unassign(m) => TakeOutKeepsSlots(w, m);
      case TeardownReset(m) => TakeOutKeepsSlots(w, m);
      case TeardownEnd =>
      case DestructorSignals(p) => OtherStepKeepsSlots(w, p, Act(w, a).procs[p]);
      case DestructorFrees(p) => OtherStepKeepsSlots(w, p, Act(w, a).procs[p]);
      case FrameArrives(p) => OtherStepKeepsSlots(w, p, Act(w, a).procs[p]);
      case ThreadSteps(p, s) => OtherStepKeepsSlots(w, p, Act(w, a).procs[p]);
      case ThreadDeletesChain(p) => OtherStepKeepsSlots(w, p, Act(w, a).procs[p]);
      case ThreadReturns(p) => OtherStepKeepsSlots(w, p, Act(w, a).procs[p]);
    }
  }

  lemma FreedKept(w: World, a: Action)
    requires SlotsAgree(w) && FreedLast(w) && Enabled(w, a)
    ensures FreedLast(Act(w, a))
  {
    match a {
      case AssignSwap(p) => TakeOutKeepsSlots(w, w.procs[p].holder.m);
      case Unassign(m) => TakeOutKeepsSlots(w, m);
      case TeardownReset(m) => TakeOutKeepsSlots(w, m);
      case _ =>
    }
  }

  /** Steps that only move a processor from holder to holder do not touch chains. */
  lemma ChainsUntouched(w: World, v: World)
    requires ChainsTold(w)
    requires |v.procs| == |w.procs| && v.owner == w.owner && v.refused == w.refused && v.deleted == w.deleted
    requires forall p :: 0 <= p < |w.procs| ==>
               v.procs[p].chain == w.procs[p].chain && HasDeleted(v.procs[p]) == HasDeleted(w.procs[p])
    ensures ChainsTold(v)
  {
    hide HasDeleted;
    forall c | c in v.owner ensures OwnedChainTold(v, c) {
      assert OwnedChainTold(w, c);
    }
    assert forall c :: Handed(v, c) == Handed(w, c);
  }

  lemma MakeKeepsChains(w: World, m: Monitor, c: Chain, t: Thread)
    requires ChainsTold(w) && !Handed(w, c) && NewThread(t)
    ensures ChainsTold(w.(procs := w.procs + [Processor(c, t, InCall(m))], owner := w.owner[c := |w.procs|]))
  {
    var v := w.(procs := w.procs + [Processor(c, t, InCall(m))], owner := w.owner[c := |w.procs|]);
    forall d | d in v.owner ensures OwnedChainTold(v, d) {
      if d != c { assert OwnedChainTold(w, d); }
    }
    assert forall d :: Handed(v, d) <==> Handed(w, d) || d == c;
  }

  lemma RefuseKeepsChains(w: World, c: Chain)
    requires ChainsTold(w) && !Handed(w, c)
    ensures ChainsTold(w.(refused := w.refused + {c}, deleted := w.deleted + multiset{c}))
  {
    var v := w.(refused := w.refused + {c}, deleted := w.deleted + multiset{c});
    forall d | d in v.owner ensures OwnedChainTold(v, d) {
      assert OwnedChainTold(w, d);
    }
    assert forall d :: Handed(v, d) <==> Handed(w, d) || d == c;
  }

  lemma DeleteKeepsChains(w: World, p: nat)
    requires ChainsTold(w) && p < |w.procs| && w.procs[p].thread.Running?
    ensures ChainsTold(w.(procs := Goes(w, p, ChainDeleted),
                          deleted := w.deleted + multiset{w.procs[p].chain}))
  {
    var c := w.procs[p].chain;
    var v := w.(procs := Goes(w, p, ChainDeleted), deleted := w.deleted + multiset{c});
    assert OwnedChainTold(w, c);
    forall d | d in v.owner ensures OwnedChainTold(v, d) {
      assert OwnedChainTold(w, d);
    }
    assert forall d :: Handed(v, d) == Handed(w, d);
    forall q | 0 <= q < |v.procs| ensures v.procs[q].chain in v.owner && v.owner[v.procs[q].chain] == q {
      assert v.procs[q].chain == w.procs[q].chain;
    }
  }

  lemma OneUntouched(w: World, a: Action)
    requires ChainsTold(w) && Enabled(w, a)
    requires a.DestructorSignals? || a.DestructorFrees? || a.FrameArrives? || a.ThreadSteps? || a.ThreadReturns?
    ensures ChainsTold(Act(w, a))
  {
    hide RunCore.Do, RunCore.Stop, RunCore.FrameArrives, ChainsTold;
    ChainsUntouched(w, Act(w, a));
  }

  lemma ChainsKept(w: World, a: Action)
    requires SlotsAgree(w) && ChainsTold(w) && Enabled(w, a)
    ensures ChainsTold(Act(w, a))
  {
    hide ChainsTold;
    match a {
      case AssignRefused(c) => RefuseKeepsChains(w, c);
      case AssignMake(m, c, t) => MakeKeepsChains(w, m, c, t);
      case AssignSwap(p) =>
        TakeOutKeepsSlots(w, w.procs[p].holder.m);
        ChainsUntouched(w, Act(w, a));
      case Unassign(m) =>
        TakeOutKeepsSlots(w, m);
        ChainsUntouched(w, Act(w, a));
      case TeardownReset(m) =>
        TakeOutKeepsSlots(w, m);
        ChainsUntouched(w, Act(w, a));
      case ThreadDeletesChain(p) => DeleteKeepsChains(w, p);
      case TeardownEnd => ChainsUntouched(w, Act(w, a));
      case _ => OneUntouched(w, a);
    }
  }

  lemma ContextKept(w: World, a: Action)
    requires Enabled(w, a) && (!w.contextAlive ==> w.slots == map[] && NoCallInFlight(w))
    ensures !Act(w, a).contextAlive ==> Act(w, a).slots == map[] && NoCallInFlight(Act(w, a))
  {
  }

  lemma {:induction false} InvHolds(acts: seq<Action>)
    ensures Inv(After(acts))
    decreases |acts|
  {
    hide SlotsAgree, FreedLast, ChainsTold, NoCallInFlight, Act;
    if acts != [] {
      var w, a := After(acts[..|acts| - 1]), acts[|acts| - 1];
      InvHolds(acts[..|acts| - 1]);
      if Enabled(w, a) {
        SlotsKept(w, a);
        FreedKept(w, a);
        ChainsKept(w, a);
        ContextKept(w, a);
      }
    } else {
      StartInv();
    }
  }

  lemma StartInv()
    ensures Inv(Start())
  {
  }

  // ----------------------------------------------------------------- every interleaving

  /** In every interleaving, no chain is ever deleted twice. */
  lemma DeletedAtMostOnce(acts: seq<Action>, c: Chain)
    ensures After(acts).deleted[c] <= 1
  {
    InvHolds(acts);
    var w := After(acts);
    if c in w.owner { assert OwnedChainTold(w, c); }
    assert Handed(w, c) || w.deleted[c] == 0;
  }

  /** In every interleaving a monitor's slot holds one live processor, whose own record says so,
      and no processor is in two slots. */
  lemma OneProcessorPerSlot(acts: seq<Action>, m: Monitor, n: Monitor)
    requires m in After(acts).slots && n in After(acts).slots
    ensures var w := After(acts);
            && w.slots[m] < |w.procs| && w.procs[w.slots[m]].holder == InSlot(m)
            && (w.slots[m] == w.slots[n] ==> m == n)
  {
    InvHolds(acts);
  }

  /** In every interleaving, AssignSwapChain's critical section puts its processor into the
      monitor's slot, hands the one that was there to a destructor, and touches no other slot. */
  lemma AssignReplaces(acts: seq<Action>, p: nat)
    requires Enabled(After(acts), AssignSwap(p))
    ensures var w := After(acts); var m := w.procs[p].holder.m;
            var v := After(acts + [AssignSwap(p)]);
            && v.slots == w.slots[m := p]
            && (m in w.slots ==> w.slots[m] < |v.procs| && v.procs[w.slots[m]].holder == InDestructor(false))
  {
    InvHolds(acts);
    assert (acts + [AssignSwap(p)])[..|acts|] == acts;
  }

  /** In every interleaving no thread of a freed processor has a step left to take: memory is
      only freed after its thread has returned (or was never created). */
  lemma NoThreadOutlivesItsProcessor(acts: seq<Action>, p: nat)
    requires p < |After(acts).procs|
    ensures After(acts).procs[p].holder.Freed? ==>
              && !Enabled(After(acts), ThreadDeletesChain(p)) && !Enabled(After(acts), ThreadReturns(p))
              && forall s :: !Enabled(After(acts), ThreadSteps(p, s))
  {
    InvHolds(acts);
  }

  // ------------------------------------------------------- the state, by what has happened

  /** The processors made so far: for which monitor and chain, and with what thread. */
  datatype Making = Making(m: Monitor, c: Chain, t: Thread)

  function Made(acts: seq<Action>): seq<Making>
    decreases |acts|
  {
    if acts == [] then []
    else
      var n := |acts| - 1;
      var a := acts[n];
      Made(acts[..n])
      + (if Enabled(After(acts[..n]), a) && a.AssignMake? then [Making(a.m, a.c, a.t)] else [])
  }

  datatype Slot = Empty | Held(p: nat)

  /** Whose processor monitor m should have: that of the last AssignSwapChain for it, unless it has
      since been unassigned or torn down. */
  function Occupant(acts: seq<Action>, m: Monitor): Slot
    decreases |acts|
  {
    if acts == [] then Empty
    else
      var n := |acts| - 1;
      var a, before := acts[n], Occupant(acts[..n], m);
      if !Enabled(After(acts[..n]), a) then before
      else match a
        case AssignSwap(p) => if p < |Made(acts[..n])| && Made(acts[..n])[p].m == m then Held(p) else before
        case Unassign(x) => if x == m then Empty else before
        case TeardownReset(x) => if x == m then Empty else before
        case _ => before
  }

  /** The critical section of the AssignSwapChain call that made processor p has run. */
  predicate Installed(acts: seq<Action>, p: nat)
    decreases |acts|
  {
    acts != [] &&
    (Installed(acts[..|acts| - 1], p)
     || (acts[|acts| - 1] == AssignSwap(p) && Enabled(After(acts[..|acts| - 1]), acts[|acts| - 1])))
  }

  /** Processors as they were made, and with the call that makes them until it has run. */
  ghost predicate MakingTold(x: Processor, mk: Making, installed: bool) {
    && x.chain == mk.c && (x.thread.NotCreated? <==> mk.t.NotCreated?)
    && (if installed then !x.holder.InCall? else x.holder == InCall(mk.m))
  }

  ghost predicate AllMakingsTold(acts: seq<Action>) {
    && |After(acts).procs| == |Made(acts)|
    && forall p :: 0 <= p < |Made(acts)| ==> MakingTold(After(acts).procs[p], Made(acts)[p], Installed(acts, p))
  }

  /** What a step may do to a processor that exists. */
  ghost predicate Follows(x: Processor, y: Processor, swapped: bool) {
    && y.chain == x.chain && y.thread.NotCreated? == x.thread.NotCreated?
    && (if swapped then !y.holder.InCall? else if x.holder.InCall? then y.holder == x.holder else !y.holder.InCall?)
  }

  lemma ProcsNext(w: World, a: Action)
    requires SlotsAgree(w) && Enabled(w, a)
    ensures var v := Act(w, a);
            && |v.procs| == |w.procs| + (if a.AssignMake? then 1 else 0)
            && (a.AssignMake? ==> v.procs[|w.procs|] == Processor(a.c, a.t, InCall(a.m)))
            && forall p :: 0 <= p < |w.procs| ==> Follows(w.procs[p], v.procs[p], a == AssignSwap(p))
  {
    hide RunCore.Do, RunCore.Can, RunCore.Stop, RunCore.FrameArrives, SlotsAgree;
    match a {
      case AssignSwap(p) => TakeOutKeepsSlots(w, w.procs[p].holder.m);
      case Unassign(m) => TakeOutKeepsSlots(w, m);
      case TeardownReset(m) => TakeOutKeepsSlots(w, m);
      case _ =>
    }
  }

  lemma AfterLast(acts: seq<Action>)
    requires acts != []
    ensures var n := |acts| - 1;
            After(acts) == if Enabled(After(acts[..n]), acts[n]) then Act(After(acts[..n]), acts[n]) else After(acts[..n])
  {
  }

  lemma HistoryNext(acts: seq<Action>, p: nat)
    requires acts != []
    ensures var n := |acts| - 1; var a := acts[n]; var happens := Enabled(After(acts[..n]), a);
            && Made(acts) == Made(acts[..n]) + (if happens && a.AssignMake? then [Making(a.m, a.c, a.t)] else [])
            && (Installed(acts, p) <==> Installed(acts[..n], p) || (happens && a == AssignSwap(p)))
  {
    hide After, Enabled;
  }

  /** No processor is installed before it is made. */
  lemma {:induction false} InstalledIsMade(acts: seq<Action>, p: nat)
    ensures Installed(acts, p) ==> p < |After(acts).procs|
    decreases |acts|
  {
    hide Act, Made;
    if acts != [] {
      var n := |acts| - 1;
      InstalledIsMade(acts[..n], p);
      InvHolds(acts[..n]);
      AfterLast(acts);
      hide After;
      if Enabled(After(acts[..n]), acts[n]) { ProcsNext(After(acts[..n]), acts[n]); }
    }
  }

  lemma MakingNext(w: World, a: Action, p: nat, mk: Making, installed: bool)
    requires SlotsAgree(w) && Enabled(w, a) && p < |w.procs| && MakingTold(w.procs[p], mk, installed)
    ensures p < |Act(w, a).procs| && MakingTold(Act(w, a).procs[p], mk, installed || a == AssignSwap(p))
  {
    ProcsNext(w, a);
    hide Act, SlotsAgree;
  }

  lemma {:induction false} MakingsTold(acts: seq<Action>)
    ensures AllMakingsTold(acts)
    decreases |acts|
  {
    hide Act, Enabled, Made, Installed, After, MakingTold, SlotsAgree;
    if acts != [] {
      var n := |acts| - 1;
      var w, a := After(acts[..n]), acts[n];
      MakingsTold(acts[..n]);
      InvHolds(acts[..n]);
      AfterLast(acts);
      HistoryNext(acts, 0);
      if Enabled(w, a) { ProcsNext(w, a); }
      forall p | 0 <= p < |Made(acts)| ensures MakingTold(After(acts).procs[p], Made(acts)[p], Installed(acts, p)) {
        HistoryNext(acts, p);
        if p < |Made(acts[..n])| {
          assert MakingTold(w.procs[p], Made(acts[..n])[p], Installed(acts[..n], p));
          if Enabled(w, a) { MakingNext(w, a, p, Made(acts[..n])[p], Installed(acts[..n], p)); }
        } else {
          InstalledIsMade(acts[..n], p);
          JustMade(w, a, Installed(acts, p));
        }
      }
    } else {
      NothingMade();
    }
  }

  lemma JustMade(w: World, a: Action, installed: bool)
    requires Enabled(w, a) && a.AssignMake? && !installed
    ensures |Act(w, a).procs| == |w.procs| + 1
    ensures MakingTold(Act(w, a).procs[|w.procs|], Making(a.m, a.c, a.t), installed)
  {
  }

  lemma NothingMade()
    ensures AllMakingsTold([])
  {
  }

  lemma SlotsNext(w: World, a: Action)
    requires SlotsAgree(w) && Enabled(w, a)
    ensures Act(w, a).slots ==
              match a
              case AssignSwap(p) => w.slots[w.procs[p].holder.m := p]
              case Unassign(m) => w.slots - {m}
              case TeardownReset(m) => w.slots - {m}
              case _ => w.slots
  {
  }

  /** In every interleaving a monitor's slot holds exactly the processor of the last AssignSwapChain
      for it, and nothing if there was none or the monitor has since been unassigned or torn down. */
  lemma {:induction false} SlotsAreHistory(acts: seq<Action>, m: Monitor)
    ensures m in After(acts).slots <==> Occupant(acts, m).Held?
    ensures m in After(acts).slots ==> Occupant(acts, m) == Held(After(acts).slots[m])
    decreases |acts|
  {
    hide Act;
    if acts != [] {
      var n := |acts| - 1;
      var w, a := After(acts[..n]), acts[n];
      SlotsAreHistory(acts[..n], m);
      InvHolds(acts[..n]);
      MakingsTold(acts[..n]);
      AfterLast(acts);
      if Enabled(w, a) {
        SlotsNext(w, a);
        if a.AssignSwap? {
          assert MakingTold(w.procs[a.p], Made(acts[..n])[a.p], Installed(acts[..n], a.p));
        }
      }
    }
  }

  /** So every processor is where its history says: with the call that makes it until that has run,
      then in its monitor's slot for as long as it is the monitor's last and the monitor is not
      unassigned or torn down, and from then on in a destructor, or freed. */
  lemma ProcessorsAreWhereTheyBelong(acts: seq<Action>, p: nat)
    requires p < |Made(acts)|
    ensures |After(acts).procs| == |Made(acts)|
    ensures var h, m := After(acts).procs[p].holder, Made(acts)[p].m;
            if !Installed(acts, p) then h == InCall(m)
            else if exists n :: Occupant(acts, n) == Held(p) then h.InSlot? && Occupant(acts, h.m) == Held(p)
            else h.InDestructor? || h.Freed?
  {
    InvHolds(acts);
    MakingsTold(acts);
    hide FreedLast, ChainsTold, Installed, Made, Occupant, After;
    var w := After(acts);
    assert MakingTold(w.procs[p], Made(acts)[p], Installed(acts, p));
    if Installed(acts, p) {
      if w.procs[p].holder.InSlot? {
        SlotsAreHistory(acts, w.procs[p].holder.m);
      } else if n :| Occupant(acts, n) == Held(p) {
        SlotsAreHistory(acts, n);
        assert false;
      }
    }
  }

  /** Nothing is left to happen: every monitor that was assigned has since been unassigned or torn
      down, every AssignSwapChain call has returned and every destructor has run to its end. */
  ghost predicate Quiet(acts: seq<Action>) {
    && (forall m :: Occupant(acts, m).Empty?)
    && (forall p :: 0 <= p < |Made(acts)| ==> Installed(acts, p))
    && (forall p :: 0 <= p < |After(acts).procs| ==> !After(acts).procs[p].holder.InDestructor?)
  }

  /** Once all is quiet, every processor ever made is freed, and the chain it was made for has been
      deleted exactly once if its thread was created, and never if CreateThread failed. */
  lemma QuietMeansAllDeletedOnce(acts: seq<Action>, p: nat)
    requires Quiet(acts) && p < |Made(acts)|
    ensures |After(acts).procs| == |Made(acts)| && After(acts).procs[p].holder.Freed?
    ensures After(acts).deleted[Made(acts)[p].c] == if Made(acts)[p].t.NotCreated? then 0 else 1
  {
    InvHolds(acts);
    MakingsTold(acts);
    ProcessorsAreWhereTheyBelong(acts, p);
    hide After, Made, Occupant, Installed, SlotsAgree;
    var w := After(acts);
    assert MakingTold(w.procs[p], Made(acts)[p], Installed(acts, p));
    assert OwnedChainTold(w, w.procs[p].chain);
  }

  lemma RefusedStays(w: World, a: Action, c: Chain)
    requires Enabled(w, a)
    ensures c in w.refused ==> c in Act(w, a).refused
    ensures !w.contextAlive ==> !Act(w, a).contextAlive
  {
  }

  lemma {:induction false} RefusedForGood(acts: seq<Action>, k: nat, c: Chain)
    requires k <= |acts|
    ensures c in After(acts[..k]).refused ==> c in After(acts).refused
    ensures !After(acts[..k]).contextAlive ==> !After(acts).contextAlive
    decreases |acts|
  {
    hide Act, Enabled;
    if k < |acts| {
      var n := |acts| - 1;
      RefusedForGood(acts[..n], k, c);
      assert acts[..n][..k] == acts[..k];
      AfterLast(acts);
      if Enabled(After(acts[..n]), acts[n]) { RefusedStays(After(acts[..n]), acts[n], c); }
    } else {
      assert acts[..k] == acts;
    }
  }

  /** A chain that was refused for want of a device has been deleted exactly once ever since. */
  lemma RefusedIsDeletedOnce(acts: seq<Action>, k: nat, c: Chain)
    requires k < |acts| && acts[k] == AssignRefused(c) && Enabled(After(acts[..k]), acts[k])
    ensures After(acts).deleted[c] == 1
  {
    RefusedForGood(acts, k + 1, c);
    assert acts[..k + 1][..k] == acts[..k];
    InvHolds(acts);
  }

  /** After the context's destructor no chain is taken and no slot changes any more. */
  lemma NothingAfterTeardown(acts: seq<Action>, k: nat)
    requires k < |acts| && acts[k] == TeardownEnd && Enabled(After(acts[..k]), acts[k])
    ensures var w := After(acts);
            && w.slots == map[]
            && forall a: Action :: a.AssignRefused? || a.AssignMake? || a.AssignSwap? || a.Unassign? || a.TeardownReset? ==> !Enabled(w, a)
  {
    hide Act, Inv;
    RefusedForGood(acts, k + 1, 0);
    AfterLast(acts[..k + 1]);
    assert acts[..k + 1][..k] == acts[..k];
    TeardownEnds(After(acts[..k]));
    InvHolds(acts);
    hide After;
    NothingWhenGone(After(acts));
  }

  lemma TeardownEnds(w: World)
    requires Enabled(w, TeardownEnd)
    ensures !Act(w, TeardownEnd).contextAlive
  {
  }

  lemma NothingWhenGone(w: World)
    requires Inv(w) && !w.contextAlive
    ensures w.slots == map[]
    ensures forall a: Action ::
              a.AssignRefused? || a.AssignMake? || a.AssignSwap? || a.Unassign? || a.TeardownReset? ==> !Enabled(w, a)
  {
  }

  // -------------------------------------------------------------- how destructors end

  /** The thread of a signalled destructor has not lost the signal. */
  predicate SignalTold(x: Processor) {
    x.holder == InDestructor(true) && x.thread.Running? ==> RunCore.Told(x.thread.core)
  }

  lemma SignalsKept(w: World, a: Action)
    requires Enabled(w, a) && SlotsAgree(w)
    requires forall p :: 0 <= p < |w.procs| ==> SignalTold(w.procs[p])
    ensures forall p :: 0 <= p < |Act(w, a).procs| ==> SignalTold(Act(w, a).procs[p])
  {
    hide RunCore.Told, RunCore.Do, RunCore.Can;
    match a {
      case ThreadSteps(p, s) => RunCore.SignalKept(w.procs[p].thread.core, s);
      case FrameArrives(p) => RunCore.FramesKeepSignal(w.procs[p].thread.core);
      case DestructorSignals(p) => if w.procs[p].thread.Running? { RunCore.StopTells(w.procs[p].thread.core); }
      case AssignSwap(p) => TakeOutKeepsSlots(w, w.procs[p].holder.m);
      case Unassign(m) => TakeOutKeepsSlots(w, m);
      case TeardownReset(m) => TakeOutKeepsSlots(w, m);
      case _ =>
    }
  }

  lemma {:induction false} SignalsHold(acts: seq<Action>)
    ensures forall p :: 0 <= p < |After(acts).procs| ==> SignalTold(After(acts).procs[p])
    decreases |acts|
  {
    hide Act, Enabled, SignalTold;
    if acts != [] {
      var w, a := After(acts[..|acts| - 1]), acts[|acts| - 1];
      SignalsHold(acts[..|acts| - 1]);
      InvHolds(acts[..|acts| - 1]);
      if Enabled(w, a) { SignalsKept(w, a); }
    }
  }

  /** The destructor of this processor can come to its end whatever its thread acquires: the thread
      was never created or is out of its loop, or both its events exist. */
  predicate Endable(x: Processor) {
    x.thread.Running? ==> RunCore.Stoppable(x.thread.core)
  }

  /** An action in which no frame comes to processor p. Everything may happen to the others. */
  predicate Still(p: nat, a: Action) {
    a != FrameArrives(p) && (a.ThreadSteps? && a.p == p ==> RunCore.NoFrame(a.s))
  }

  ghost predicate AllStill(p: nat, more: seq<Action>) {
    forall k :: 0 <= k < |more| ==> Still(p, more[k])
  }

  /** A step of processor p's own thread or destructor. */
  predicate Own(p: nat, a: Action) {
    match a
    case DestructorSignals(q) => p == q
    case DestructorFrees(q) => p == q
    case ThreadSteps(q, _) => p == q
    case ThreadDeletesChain(q) => p == q
    case ThreadReturns(q) => p == q
    case _ => false
  }

  /** What is left to do, at most, for a processor in a destructor when no frame comes. */
  function StepsLeft(x: Processor): nat {
    (match x.thread case Running(c) => 2 + RunCore.Distance(c) case ChainDeleted => 1 case _ => 0)
    + (match x.holder case InDestructor(false) => 2 case InDestructor(true) => 1 case _ => 0)
  }

  predicate Ending(x: Processor) {
    x.holder.InDestructor? || x.holder.Freed?
  }

  lemma OthersLeaveItAlone(w: World, p: nat, a: Action)
    requires SlotsAgree(w) && Enabled(w, a) && Still(p, a) && !Own(p, a)
    requires HasProcessor(w, p) && Ending(w.procs[p])
    ensures HasProcessor(Act(w, a), p) && Act(w, a).procs[p] == w.procs[p]
  {
  }

  lemma OwnStep(w: World, p: nat, a: Action)
    requires Enabled(w, a) && Still(p, a) && Own(p, a) && HasProcessor(w, p) && Ending(w.procs[p]) && Endable(w.procs[p])
    requires FreedLast(w)
    ensures HasProcessor(Act(w, a), p) && Endable(Act(w, a).procs[p])
    ensures StepsLeft(Act(w, a).procs[p]) < StepsLeft(w.procs[p])
  {
    var x := w.procs[p];
    if x.thread.Running? && a.ThreadSteps? {
      RunCore.LeavesIff(x.thread.core, a.s);
      RunCore.NearsTheEnd(x.thread.core, a.s);
    }
    hide RunCore.Do, RunCore.Can;
  }

  /** Processor p's thread leaves its loop for a failure. */
  predicate FailsAt(w: World, p: nat, a: Action) {
    Enabled(w, a) && a.ThreadSteps? && a.p == p && RunCore.GivesUp(w.procs[p].thread.core, a.s)
  }

  lemma EndableNext(w: World, p: nat, a: Action)
    requires SlotsAgree(w) && FreedLast(w) && Enabled(w, a) && HasProcessor(w, p) && Ending(w.procs[p])
    ensures HasProcessor(Act(w, a), p) && Ending(Act(w, a).procs[p])
    ensures Endable(Act(w, a).procs[p]) <==> Endable(w.procs[p]) || FailsAt(w, p, a)
  {
    hide RunCore.Do, RunCore.Can, RunCore.GivesUp;
    if a.ThreadSteps? { RunCore.LeavesIff(w.procs[a.p].thread.core, a.s); }
  }

  /** How many of `more`, happening after `acts`, are steps of p's own thread or destructor. */
  function Taken(acts: seq<Action>, more: seq<Action>, p: nat): nat
    decreases |more|
  {
    if more == [] then 0
    else
      var k := |more| - 1;
      Taken(acts, more[..k], p) + (if Own(p, more[k]) && Enabled(After(acts + more[..k]), more[k]) then 1 else 0)
  }

  /** The step that brings a processor nearer to its end. */
  function NextStep(x: Processor, p: nat): Action {
    if x.holder == InDestructor(false) then DestructorSignals(p)
    else match x.thread
      case Running(c) => if c.place.Left? then ThreadDeletesChain(p) else ThreadSteps(p, RunCore.Next(c))
      case ChainDeleted => ThreadReturns(p)
      case _ => DestructorFrees(p)
  }

  lemma NextStepIsPossible(w: World, p: nat)
    requires HasProcessor(w, p) && w.procs[p].holder.InDestructor? && Endable(w.procs[p]) && SignalTold(w.procs[p])
    ensures var a := NextStep(w.procs[p], p); Enabled(w, a) && Own(p, a) && Still(p, a)
  {
    var x := w.procs[p];
    if x.thread.Running? && x.holder == InDestructor(true) && !x.thread.core.place.Left? {
      RunCore.NextIsPossible(x.thread.core);
    }
  }

  lemma Later(acts: seq<Action>, more: seq<Action>)
    requires more != []
    ensures var k := |more| - 1;
            After(acts + more) == if Enabled(After(acts + more[..k]), more[k]) then Act(After(acts + more[..k]), more[k])
                                  else After(acts + more[..k])
  {
    hide Act, Enabled;
    assert (acts + more)[..|acts + more| - 1] == acts + more[..|more| - 1];
  }

  lemma {:induction false} StepsTaken(acts: seq<Action>, p: nat, more: seq<Action>)
    requires p < |After(acts).procs| && Ending(After(acts).procs[p]) && Endable(After(acts).procs[p]) && AllStill(p, more)
    ensures p < |After(acts + more).procs| && Ending(After(acts + more).procs[p]) && Endable(After(acts + more).procs[p])
    ensures Taken(acts, more, p) + StepsLeft(After(acts + more).procs[p]) <= StepsLeft(After(acts).procs[p])
    decreases |more|
  {
    hide Act, Enabled, Own, Still, StepsLeft, Ending, Endable, NextStep, FailsAt;
    if more == [] {
      assert acts + more == acts;
    } else {
      var k := |more| - 1;
      StepsTaken(acts, p, more[..k]);
      var w, a := After(acts + more[..k]), more[k];
      Later(acts, more);
      InvHolds(acts + more[..k]);
      assert Still(p, a);
      if Enabled(w, a) {
        EndableNext(w, p, a);
        if Own(p, a) { OwnStep(w, p, a); } else { OthersLeaveItAlone(w, p, a); }
      }
    }
  }

  /** In every interleaving in which processor p's destructor has begun and no frame comes to it any
      more, however acquiring and binding fail: if its thread never was, or is out of its loop, or
      has both events, then within at most 14 steps of its own thread and destructor it is freed,
      and for as long as it is not freed one of those steps is possible. */
  lemma DestructorEnds(acts: seq<Action>, p: nat, more: seq<Action>)
    requires p < |After(acts).procs| && After(acts).procs[p].holder.InDestructor? && Endable(After(acts).procs[p])
    requires AllStill(p, more)
    ensures p < |After(acts + more).procs|
    ensures var x, w := After(acts).procs[p], After(acts + more);
            var y := w.procs[p];
            && Taken(acts, more, p) + StepsLeft(y) <= StepsLeft(x) <= 14
            && (y.holder.Freed? || (Own(p, NextStep(y, p)) && Still(p, NextStep(y, p)) && Enabled(w, NextStep(y, p))))
  {
    StepsTaken(acts, p, more);
    SignalsHold(acts + more);
    var w := After(acts + more);
    if !w.procs[p].holder.Freed? { NextStepIsPossible(w, p); }
    hide Act, Enabled, Own, Still, After, NextStep;
  }

  /** Somewhere in `more`, happening after `acts`, p's thread leaves its loop for a failure. */
  ghost predicate GivesUpIn(acts: seq<Action>, more: seq<Action>, p: nat) {
    exists k :: 0 <= k < |more| && FailsAt(After(acts + more[..k]), p, more[k])
  }

  lemma GivesUpInNext(acts: seq<Action>, more: seq<Action>, p: nat)
    requires more != []
    ensures var k := |more| - 1;
            GivesUpIn(acts, more, p) <==> GivesUpIn(acts, more[..k], p) || FailsAt(After(acts + more[..k]), p, more[k])
  {
    hide After, FailsAt;
    var k := |more| - 1;
    forall i | 0 <= i < k ensures more[..k][..i] == more[..i] && more[..k][i] == more[i] {
    }
    if GivesUpIn(acts, more[..k], p) {
      var i :| 0 <= i < k && FailsAt(After(acts + more[..k][..i]), p, more[..k][i]);
      assert FailsAt(After(acts + more[..i]), p, more[i]);
    }
    if GivesUpIn(acts, more, p) {
      var i :| 0 <= i < |more| && FailsAt(After(acts + more[..i]), p, more[i]);
      assert i < k ==> FailsAt(After(acts + more[..k][..i]), p, more[..k][i]);
    }
  }

  /** In every interleaving, frames and all: a processor in its destructor is as Endable says at a
      later time if and only if it is already, or its thread has left for a failure meanwhile; and
      it is freed in no other case. */
  lemma {:induction false} EndableIff(acts: seq<Action>, p: nat, more: seq<Action>)
    requires p < |After(acts).procs| && Ending(After(acts).procs[p])
    ensures p < |After(acts + more).procs| && Ending(After(acts + more).procs[p])
    ensures Endable(After(acts + more).procs[p]) <==> Endable(After(acts).procs[p]) || GivesUpIn(acts, more, p)
    decreases |more|
  {
    hide Act, Enabled, Ending, Endable, FailsAt;
    if more == [] {
      assert acts + more == acts;
    } else {
      var k := |more| - 1;
      EndableIff(acts, p, more[..k]);
      var w, a := After(acts + more[..k]), more[k];
      Later(acts, more);
      InvHolds(acts + more[..k]);
      GivesUpInNext(acts, more, p);
      if Enabled(w, a) { EndableNext(w, p, a); } else { NoFailure(w, p, a); }
    }
  }

  lemma NoFailure(w: World, p: nat, a: Action)
    requires !Enabled(w, a)
    ensures !FailsAt(w, p, a)
  {
  }

  lemma FreedIsEndable(acts: seq<Action>, p: nat)
    requires p < |After(acts).procs| && After(acts).procs[p].holder.Freed?
    ensures Endable(After(acts).procs[p])
  {
    InvHolds(acts);
  }

  /** Neither p's thread nor its destructor can take a step. */
  ghost predicate AtRest(w: World, p: nat) {
    forall a :: Own(p, a) ==> !Enabled(w, a)
  }

  /** In every interleaving, frames and all, in which processor p's destructor has begun and nothing
      is left for it and its thread to do: the destructor has ended if and only if the thread never
      was, was out of its loop or had both events when it began, or has since left for a failure,
      of binding, of acquiring or of finishing a frame. Otherwise it waits in vain. */
  lemma DestructorEndsIff(acts: seq<Action>, p: nat, more: seq<Action>)
    requires p < |After(acts).procs| && After(acts).procs[p].holder.InDestructor?
    ensures p < |After(acts + more).procs|
    ensures var y := After(acts + more).procs[p]; var can := Endable(After(acts).procs[p]) || GivesUpIn(acts, more, p);
            && (y.holder.Freed? ==> can)
            && (AtRest(After(acts + more), p) ==> (y.holder.Freed? <==> can))
  {
    hide GivesUpIn, Own, Enabled, Act;
    EndableIff(acts, p, more);
    SignalsHold(acts + more);
    var w := After(acts + more);
    if w.procs[p].holder.Freed? {
      FreedIsEndable(acts + more, p);
    } else if Endable(w.procs[p]) {
      NextStepIsPossible(w, p);
    }
  }

  /** An action in which, moreover, binding succeeds and an acquire only ever pends. */
  predicate Pending(p: nat, a: Action) {
    Still(p, a) && (a.ThreadSteps? && a.p == p ==> a.s != RunCore.Binds(false) && (a.s.Acquires? ==> a.s.result.Pending?))
  }

  ghost predicate AllPending(p: nat, more: seq<Action>) {
    forall k :: 0 <= k < |more| ==> Pending(p, more[k])
  }

  lemma PendingNeverFails(acts: seq<Action>, p: nat, more: seq<Action>)
    requires AllPending(p, more)
    ensures AllStill(p, more) && !GivesUpIn(acts, more, p)
  {
    hide After, Enabled;
    forall k | 0 <= k < |more| ensures Still(p, more[k]) && !FailsAt(After(acts + more[..k]), p, more[k]) {
      assert Pending(p, more[k]);
    }
  }

  /** So while every acquire pends, the destructor of a processor can end if and only if its thread
      never was, is out of its loop or has both events. */
  lemma DestructorCanEndIff(acts: seq<Action>, p: nat)
    requires p < |After(acts).procs| && After(acts).procs[p].holder.InDestructor?
    ensures (exists more :: AllPending(p, more) && p < |After(acts + more).procs| && After(acts + more).procs[p].holder.Freed?)
       <==> Endable(After(acts).procs[p])
  {
    hide Endable, Pending, GivesUpIn;
    if Endable(After(acts).procs[p]) {
      assert acts + [] == acts;
      var more := ToTheEnd(acts, p, []);
    } else {
      forall more | AllPending(p, more) ensures p < |After(acts + more).procs| && !After(acts + more).procs[p].holder.Freed? {
        PendingNeverFails(acts, p, more);
        DestructorEndsIff(acts, p, more);
      }
    }
  }

  lemma {:induction false} ToTheEnd(acts: seq<Action>, p: nat, some: seq<Action>) returns (more: seq<Action>)
    requires p < |After(acts).procs| && After(acts).procs[p].holder.InDestructor? && Endable(After(acts).procs[p])
    requires AllPending(p, some) && p < |After(acts + some).procs|
    ensures AllPending(p, more) && p < |After(acts + more).procs| && After(acts + more).procs[p].holder.Freed?
    decreases StepsLeft(After(acts + some).procs[p])
  {
    hide Act, Enabled, Own, Still, Pending, StepsLeft, Endable, NextStep, GivesUpIn;
    PendingNeverFails(acts, p, some);
    DestructorEnds(acts, p, some);
    EndingIn(acts, p);
    StepsTaken(acts, p, some);
    var w := After(acts + some);
    if w.procs[p].holder.Freed? {
      more := some;
    } else {
      var a := NextStep(w.procs[p], p);
      NextPends(w.procs[p], p);
      assert (some + [a])[..|some|] == some;
      assert (acts + (some + [a]))[..|acts| + |some|] == acts + some;
      OneStepOn(acts, p, some, a);
      more := ToTheEnd(acts, p, some + [a]);
    }
  }

  lemma NextPends(x: Processor, p: nat)
    ensures Pending(p, NextStep(x, p))
  {
  }

  lemma EndingIn(acts: seq<Action>, p: nat)
    requires p < |After(acts).procs| && After(acts).procs[p].holder.InDestructor?
    ensures Ending(After(acts).procs[p])
  {
  }

  lemma OneStepOn(acts: seq<Action>, p: nat, some: seq<Action>, a: Action)
    requires p < |After(acts + some).procs| && Ending(After(acts + some).procs[p]) && Endable(After(acts + some).procs[p])
    requires Own(p, a) && Still(p, a) && Enabled(After(acts + some), a)
    ensures p < |After(acts + (some + [a])).procs|
    ensures StepsLeft(After(acts + (some + [a])).procs[p]) < StepsLeft(After(acts + some).procs[p])
  {
    hide Act, Enabled, Own, Still, StepsLeft, Endable;
    var all := acts + (some + [a]);
    assert all[..|all| - 1] == acts + some && all[|all| - 1] == a;
    InvHolds(acts + some);
    OwnStep(After(acts + some), p, a);
  }
}
