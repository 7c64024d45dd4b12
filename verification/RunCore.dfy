/** The loop of a swap-chain processor's thread (SwapChainProcessor::RunCore in
    driver/src/Driver.cpp): acquire a surface, drop it, wait for the next or for teardown. */
module RunCore {

  const MAX_RETRIES := 5

  /** What acquiring a surface returned: none yet; one, with the outcome of reporting it finished;
      access lost; or another failure. */
  datatype Acquired = Pending | Success(finished: bool) | AccessLost | OtherFailure

  datatype Place = Binding | Acquiring | Waiting | Left

  /** Where the thread stands, whether each event exists (CreateEvent may fail, and the system may
      pass none), whether each is set, and the retries since the last surface. */
  datatype Core = Core(
    frameEvent: bool, stopEvent: bool, frameSet: bool, stopSet: bool, retries: nat, place: Place)

  /** One step of the thread: binding the device; one acquire; a wait that ends. `again`: the
      new-frame event is set again, or still, once the wait has returned for it. */
  datatype Step = Binds(ok: bool) | Acquires(result: Acquired) | Wakes(again: bool)

  function Begin(frameEvent: bool, stopEvent: bool): Core {
    Core(frameEvent, stopEvent, false, false, 0, Binding)
  }

  predicate HasFrame(c: Core) { c.frameEvent && c.frameSet }

  predicate HasStop(c: Core) { c.stopEvent && c.stopSet }

  /** A wait ends when an event it was given is set, and at once when it was given none. */
  predicate Can(c: Core, s: Step) {
    match s
    case Binds(_) => c.place.Binding?
    case Acquires(_) => c.place.Acquiring?
    case Wakes(_) => c.place.Waiting? && (HasFrame(c) || HasStop(c) || (!c.frameEvent && !c.stopEvent))
  }

  function AfterAcquire(c: Core, r: Acquired): Core {
    match r
    case Pending => c.(place := Waiting)
    case Success(finished) => if finished then c.(retries := 0) else c.(place := Left)
    case AccessLost => if c.retries < MAX_RETRIES then c.(retries := c.retries + 1) else c.(place := Left)
    case OtherFailure => c.(place := Left)
  }

  /** The events are waited for in the order new frame, terminate, each only if it exists; the
      first one set ends the wait and, being auto-reset, the terminate event is taken with it. The
      thread leaves only on the second place; the first is always taken for a new frame. */
  function AfterWait(c: Core, again: bool): Core {
    if HasFrame(c) then c.(frameSet := again, place := Acquiring)
    else if HasStop(c) then c.(stopSet := false, place := if c.frameEvent then Left else Acquiring)
    else c.(place := Acquiring)
  }

  function Do(c: Core, s: Step): Core {
    match s
    case Binds(ok) => c.(place := if ok then Acquiring else Left)
    case Acquires(r) => AfterAcquire(c, r)
    case Wakes(again) => AfterWait(c, again)
  }

  /** SetEvent on the terminate event, if there is one. */
  function Stop(c: Core): Core {
    if c.stopEvent then c.(stopSet := true) else c
  }

  function FrameArrives(c: Core): Core { c.(frameSet := true) }

  /** A step in which no frame comes: none is acquired, and the frame event stays unset. Binding and
      acquiring may fail in every way they can. */
  predicate NoFrame(s: Step) {
    match s
    case Binds(_) => true
    case Acquires(r) => !r.Success?
    case Wakes(again) => !again
  }

  /** A failure the thread leaves for. */
  predicate GivesUp(c: Core, s: Step) {
    match s
    case Binds(ok) => !ok
    case Acquires(r) => r.OtherFailure? || r == Success(false) || (r.AccessLost? && c.retries >= MAX_RETRIES)
    case Wakes(_) => false
  }

  /** Both events exist, so that the terminate event can be told from a new frame; or the thread
      has left already. */
  predicate Stoppable(c: Core) {
    c.place.Left? || (c.frameEvent && c.stopEvent)
  }

  /** The signal is there until the thread leaves for it. */
  predicate Told(c: Core) {
    c.frameEvent && c.stopEvent ==> c.stopSet || c.place.Left?
  }

  /** A signal is never lost while both events exist, whatever the thread does and acquires. */
  lemma SignalKept(c: Core, s: Step)
    requires Can(c, s)
    ensures Told(c) ==> Told(Do(c, s))
  {
  }

  lemma FramesKeepSignal(c: Core)
    ensures Told(c) ==> Told(FrameArrives(c))
  {
  }

  lemma StopTells(c: Core)
    ensures Told(Stop(c))
  {
  }

  /** How far a thread is, at most, from having left when no frame comes any more. */
  function Distance(c: Core): nat {
    (match c.place
     case Left => 0
     case Waiting => if c.frameSet then 3 else 1
     case Acquiring => if c.frameSet then 4 else 2
     case Binding => 5)
    + (if c.retries < MAX_RETRIES then MAX_RETRIES - c.retries else 0)
  }

  lemma NearsTheEnd(c: Core, s: Step)
    requires Can(c, s) && NoFrame(s) && c.frameEvent && c.stopEvent
    ensures Distance(Do(c, s)) < Distance(c)
  {
  }

  /** The step a thread takes next when no frame comes any more. */
  function Next(c: Core): Step {
    match c.place
    case Binding => Binds(true)
    case Acquiring => Acquires(Pending)
    case _ => Wakes(false)
  }

  lemma NextIsPossible(c: Core)
    requires !c.place.Left? && Stoppable(c) && Told(c)
    ensures Can(c, Next(c)) && NoFrame(Next(c))
  {
  }

  /** Without both events, a thread leaves for a failure and for nothing else. */
  lemma LeavesIff(c: Core, s: Step)
    requires Can(c, s)
    ensures Stoppable(Do(c, s)) <==> Stoppable(c) || GivesUp(c, s)
  {
  }

  // ----------------------------------------------------------------------- retries

  /** A thread's steps from its beginning, frames and teardown coming when they like. */
  datatype Happening = Steps(s: Step) | Frame | Teardown

  function Happens(c: Core, h: Happening): Core {
    match h
    case Steps(s) => if Can(c, s) then Do(c, s) else c
    case Frame => FrameArrives(c)
    case Teardown => Stop(c)
  }

  function After(frameEvent: bool, stopEvent: bool, hs: seq<Happening>): Core
    decreases |hs|
  {
    if hs == [] then Begin(frameEvent, stopEvent)
    else Happens(After(frameEvent, stopEvent, hs[..|hs| - 1]), hs[|hs| - 1])
  }

  /** A count of losses of access since the last surface, after one more happening. */
  function Counted(c: Core, n: nat, h: Happening): nat {
    match h
    case Steps(Acquires(r)) =>
      if !c.place.Acquiring? then n else if r.Success? then 0 else if r.AccessLost? then n + 1 else n
    case _ => n
  }

  /** How often access was lost since the last surface. */
  function LossesSinceSuccess(frameEvent: bool, stopEvent: bool, hs: seq<Happening>): nat
    decreases |hs|
  {
    if hs == [] then 0
    else
      var k := |hs| - 1;
      Counted(After(frameEvent, stopEvent, hs[..k]), LossesSinceSuccess(frameEvent, stopEvent, hs[..k]), hs[k])
  }

  lemma RetriesCount(c: Core, h: Happening)
    requires !c.place.Left? ==> c.retries <= 5
    ensures var d := Happens(c, h); !d.place.Left? ==> d.retries == Counted(c, c.retries, h) <= 5 && !c.place.Left?
  {
  }

  /** In every run, a thread that is still in the loop has lost access at most five times since
      the last surface; the next loss makes it leave if and only if it is the sixth. Waiting does
      not reset the count. */
  lemma {:induction false} SixthLossLeaves(frameEvent: bool, stopEvent: bool, hs: seq<Happening>)
    ensures var c, n := After(frameEvent, stopEvent, hs), LossesSinceSuccess(frameEvent, stopEvent, hs);
            !c.place.Left? ==>
              && c.retries == n <= 5
              && (Do(c, Acquires(AccessLost)).place.Left? <==> n + 1 == 6)
    decreases |hs|
  {
    hide Happens, Counted;
    if hs != [] {
      SixthLossLeaves(frameEvent, stopEvent, hs[..|hs| - 1]);
      RetriesCount(After(frameEvent, stopEvent, hs[..|hs| - 1]), hs[|hs| - 1]);
    }
  }

  // -------------------------------------------------------------------- other endings

  /** The thread does not give up, and ends no wait without a new frame. */
  predicate BusyWith(c: Core, h: Happening) {
    h.Steps? && Can(c, h.s) ==> !GivesUp(c, h.s) && (h.s.Wakes? ==> HasFrame(c))
  }

  ghost predicate BusyThroughout(frameEvent: bool, stopEvent: bool, hs: seq<Happening>) {
    forall k :: 0 <= k < |hs| ==> BusyWith(After(frameEvent, stopEvent, hs[..k]), hs[k])
  }

  lemma BusyNext(c: Core, h: Happening)
    requires BusyWith(c, h) && !c.place.Left?
    ensures var d := Happens(c, h);
            !d.place.Left? && d.stopEvent == c.stopEvent && (c.stopSet ==> d.stopSet)
            && (h.Teardown? && c.stopEvent ==> d.stopSet)
  {
  }

  /** A thread that finds a new frame at every wait never leaves, even when it has been told to: the
      new frame is looked at first, and the terminate event stays set. */
  lemma {:induction false} FramesKeepItGoing(frameEvent: bool, stopEvent: bool, hs: seq<Happening>)
    requires BusyThroughout(frameEvent, stopEvent, hs)
    ensures var c := After(frameEvent, stopEvent, hs);
            !c.place.Left? && c.stopEvent == stopEvent && (stopEvent && Teardown in hs ==> c.stopSet)
    decreases |hs|
  {
    hide BusyWith, Happens;
    if hs != [] {
      var n := |hs| - 1;
      forall k | 0 <= k < n ensures BusyWith(After(frameEvent, stopEvent, hs[..n][..k]), hs[..n][k]) {
        assert hs[..n][..k] == hs[..k];
      }
      FramesKeepItGoing(frameEvent, stopEvent, hs[..n]);
      BusyNext(After(frameEvent, stopEvent, hs[..n]), hs[n]);
      assert hs == hs[..n] + [hs[n]];
    }
  }

  /** With neither event there is nothing to wait for: the thread goes round for ever, always able to
      take its next step. */
  lemma SpinsWithoutEvents(c: Core)
    requires !c.frameEvent && !c.stopEvent && !c.place.Left?
    ensures Can(c, Next(c)) && !Do(c, Next(c)).place.Left?
  {
  }
}
