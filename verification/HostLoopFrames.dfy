/** The frames the host's main loop sends, turn by turn: which of them carry the keyframe flag,
    which report their true size, and when no more can come. */
module HostLoopFrames {
  import opened Bytes
  import opened Controller
  import opened HostLoop

  /** A connection: the loop's start and everything its turns take from outside. */
  datatype Session = Session(native: Size, adaptive: bool, turns: seq<Turn>)

  function StateAt(h: Session, j: nat): State
    requires j <= |h.turns|
  {
    After(h.native, h.adaptive, h.turns[..j]).state
  }

  /** The frame turn j puts on the wire. */
  function SentAt(h: Session, j: nat): Option<VideoFrame>
    requires j < |h.turns|
  {
    Emitted(StateAt(h, j), h.turns[j])
  }

  /** Turn j calls Resize. */
  predicate ResizesAt(h: Session, j: nat)
    requires j < |h.turns|
  {
    StateAt(h, j).running && h.turns[j].captured && ResizeWanted(StateAt(h, j)).Some?
  }

  predicate ResizedAt(h: Session, j: nat)
    requires j < |h.turns|
  {
    ResizesAt(h, j) && h.turns[j].resize.Resized?
  }

  predicate RequestedAt(h: Session, j: nat)
    requires j < |h.turns|
  {
    h.turns[j].keyframeRequested
  }

  /** Turn j gives up the ladder at a reduced size: Resize failed below the top. */
  predicate GivesUpAt(h: Session, j: nat)
    requires j < |h.turns|
  {
    ResizesAt(h, j) && !h.turns[j].resize.Resized? && StateAt(h, j).ctl.scaleIdx > 0 && StateAt(h, j).cur != h.native
  }

  /** No frame leaves from turn `a` up to turn `b`. */
  ghost predicate Quiet(h: Session, a: nat, b: nat)
    requires b <= |h.turns|
  {
    forall k :: a <= k < b ==> SentAt(h, k).None?
  }

  ghost predicate NoneResized(h: Session, a: nat, b: nat)
    requires b <= |h.turns|
  {
    forall k :: a <= k < b ==> !ResizedAt(h, k)
  }

  lemma StateNext(h: Session, j: nat)
    requires Turns(h.turns) && j < |h.turns|
    ensures StateAt(h, j + 1) == Step(StateAt(h, j), h.turns[j])
    ensures StateAt(h, 0) == Init(h.native, h.adaptive)
  {
    assert h.turns[..j + 1][..j] == h.turns[..j];
    assert h.turns[..0] == [];
  }

  lemma StateTold(h: Session, j: nat)
    requires Turns(h.turns) && j <= |h.turns|
    ensures var s := StateAt(h, j); Sane(s.ctl) && SizesTold(s) && s.native == h.native && s.adaptive == h.adaptive
  {
    RunInv(h.native, h.adaptive, h.turns[..j]);
    hide SizesTold, MovesTold;
  }

  /** The frames of the turns, in order, are the frames of the run. */
  lemma FrameIsInRun(h: Session, j: nat)
    requires j < |h.turns|
    ensures var before, after := After(h.native, h.adaptive, h.turns[..j]).sent, After(h.native, h.adaptive, h.turns[..j + 1]).sent;
            after == before + (if SentAt(h, j).Some? then [SentAt(h, j).value] else [])
  {
    hide Step, Emitted, Moves;
    assert h.turns[..j + 1][..j] == h.turns[..j];
  }

  // --------------------------------------------------------------------- keyframes

  /** A keyframe is due at turn j's resize phase: no frame has left since the start, since a
      Resize that succeeded, or since a request was read. */
  ghost predicate DueBefore(h: Session, j: nat)
    requires j <= |h.turns|
  {
    || Quiet(h, 0, j)
    || (exists i :: 0 <= i < j && ResizedAt(h, i) && Quiet(h, i, j))
    || (exists i :: 0 <= i < j && RequestedAt(h, i) && Quiet(h, i + 1, j))
  }

  ghost predicate Due(h: Session, j: nat)
    requires j < |h.turns|
  {
    DueBefore(h, j) || ResizedAt(h, j)
  }

  lemma QuietNext(h: Session, a: nat, j: nat)
    requires j < |h.turns| && a <= j
    ensures Quiet(h, a, j + 1) <==> Quiet(h, a, j) && SentAt(h, j).None?
  {
  }

  lemma DueNext(h: Session, j: nat)
    requires j < |h.turns|
    ensures DueBefore(h, j + 1) <==>
              (SentAt(h, j).None? && (DueBefore(h, j) || ResizedAt(h, j))) || RequestedAt(h, j)
  {
    hide SentAt, ResizedAt, RequestedAt;
    forall a: nat | a <= j ensures Quiet(h, a, j + 1) <==> Quiet(h, a, j) && SentAt(h, j).None? {
      QuietNext(h, a, j);
    }
    assert Quiet(h, j, j) && Quiet(h, j + 1, j + 1);
  }

  lemma PendingNext(s: State, t: Turn)
    requires s.running && Step(s, t).running
    ensures var resized := t.captured && ResizeWanted(s).Some? && t.resize.Resized?;
            Step(s, t).keyframePending <==> (Emitted(s, t).None? && (s.keyframePending || resized)) || t.keyframeRequested
  {
    hide LadderSize, Tick;
  }

  lemma {:induction false} PendingIff(h: Session, j: nat)
    requires Turns(h.turns) && j <= |h.turns|
    ensures StateAt(h, j).running ==> (StateAt(h, j).keyframePending <==> DueBefore(h, j))
  {
    hide StateAt, Emitted, Step, DueBefore, ResizeWanted;
    if j > 0 {
      PendingIff(h, j - 1);
      StateNext(h, j - 1);
      DueNext(h, j - 1);
      if StateAt(h, j).running {
        StoppedStays(StateAt(h, j - 1), h.turns[j - 1]);
        PendingNext(StateAt(h, j - 1), h.turns[j - 1]);
      }
    } else {
      NothingDueButTheFirst(h);
    }
  }

  lemma NothingDueButTheFirst(h: Session)
    ensures StateAt(h, 0).keyframePending && DueBefore(h, 0)
  {
    assert h.turns[..0] == [];
  }

  lemma StoppedStays(s: State, t: Turn)
    ensures Step(s, t).running ==> s.running
  {
  }

  /** In every run, a sent frame carries the keyframe flag if and only if the encoder made an IDR
      frame or a keyframe was due: it is the first frame to leave since the start, since a Resize
      that succeeded or since a request was read, whatever captures, encodes and resizes failed
      in between. */
  lemma KeyframeIff(h: Session, j: nat)
    requires Turns(h.turns) && j < |h.turns| && SentAt(h, j).Some?
    ensures SentAt(h, j).value.keyframe <==> h.turns[j].encode.idr || Due(h, j)
  {
    hide StateAt, DueBefore;
    PendingIff(h, j);
    FlagOf(StateAt(h, j), h.turns[j]);
  }

  lemma FlagOf(s: State, t: Turn)
    requires Emitted(s, t).Some?
    ensures s.running && t.captured && t.encode.Frame?
    ensures Emitted(s, t).value.keyframe <==>
              t.encode.idr || s.keyframePending || (ResizeWanted(s).Some? && t.resize.Resized?)
  {
    hide LadderSize;
  }

  // ------------------------------------------------------------------------- sizes

  /** Before turn j, the ladder was last given up at a reduced size after the last Resize that succeeded. */
  ghost predicate GivenUp(h: Session, j: nat)
    requires j <= |h.turns|
  {
    exists i :: 0 <= i < j && GivesUpAt(h, i) && NoneResized(h, i + 1, j)
  }

  lemma GivenUpNext(h: Session, j: nat)
    requires j < |h.turns|
    ensures GivenUp(h, j + 1) <==> GivesUpAt(h, j) || (GivenUp(h, j) && !ResizedAt(h, j))
  {
    hide ResizesAt, StateAt;
    if GivesUpAt(h, j) { assert NoneResized(h, j + 1, j + 1); }
    if GivenUp(h, j) && !ResizedAt(h, j) {
      var i :| 0 <= i < j && GivesUpAt(h, i) && NoneResized(h, i + 1, j);
      assert NoneResized(h, i + 1, j + 1);
    }
    if GivenUp(h, j + 1) && !GivesUpAt(h, j) {
      var i :| 0 <= i < j + 1 && GivesUpAt(h, i) && NoneResized(h, i + 1, j + 1);
      assert i < j && NoneResized(h, i + 1, j);
    }
  }

  /** The encoder has another size than the loop believes. */
  predicate Misled(s: State) {
    s.enc.Alive? && s.enc.size != s.cur
  }

  lemma MisledAfterResize(s: State, r: ResizeResult)
    requires SizesTold(s)
    ensures var p, wanted := ResizePhase(s, r), ResizeWanted(s).Some?;
            var givesUp := wanted && !r.Resized? && s.ctl.scaleIdx > 0 && s.cur != s.native;
            p.enc.Alive? ==>
              && (Misled(p) <==> givesUp || (Misled(s) && !(wanted && r.Resized?)))
              && (s.enc.Alive? || (wanted && r.Resized?))
  {
  }

  lemma RestKeepsSizes(s: State, t: Turn)
    requires s.running
    ensures var p, e := if t.captured then ResizePhase(s, t.resize) else s, Step(s, t);
            e.cur == p.cur && e.enc == p.enc
  {
    hide ResizePhase, Tick;
  }

  lemma {:induction false} MisledIff(h: Session, j: nat)
    requires Turns(h.turns) && j <= |h.turns|
    ensures StateAt(h, j).enc.Alive? ==> (Misled(StateAt(h, j)) <==> GivenUp(h, j))
  {
    hide StateAt, Step, GivenUp, SizesTold, Misled, ResizeWanted, ResizePhase;
    if j > 0 {
      var s, t := StateAt(h, j - 1), h.turns[j - 1];
      MisledIff(h, j - 1);
      StateNext(h, j - 1);
      StateTold(h, j - 1);
      GivenUpNext(h, j - 1);
      MisledAfterResize(s, t.resize);
      SameSizesSameMisled(s, t);
    } else {
      NotMisledAtStart(h);
    }
  }

  lemma SameSizesSameMisled(s: State, t: Turn)
    ensures var e := Step(s, t); var p := if s.running && t.captured then ResizePhase(s, t.resize) else s;
            Misled(e) == Misled(p) && e.enc == p.enc
  {
    hide ResizePhase, Tick;
  }

  lemma NotMisledAtStart(h: Session)
    ensures !Misled(StateAt(h, 0)) && !GivenUp(h, 0)
  {
    assert h.turns[..0] == [];
  }

  /** In every run, a sent frame reports a size of the ladder, and it reports another size than the
      one it was encoded at if and only if the ladder was given up at a reduced size, this turn or
      earlier, and no Resize has succeeded since. */
  lemma MisreportIff(h: Session, j: nat)
    requires Turns(h.turns) && j < |h.turns| && SentAt(h, j).Some?
    ensures var f := SentAt(h, j).value;
            && OnLadder(h.native, f.display)
            && (f.display != f.encoded <==> GivenUp(h, j + 1))
  {
    hide StateAt, GivenUp, OnLadder, ResizePhase, GivesUpAt;
    StateTold(h, j);
    SizesThroughResize(StateAt(h, j), h.turns[j].resize);
    StateNext(h, j);
    MisledIff(h, j + 1);
    RestKeepsSizes(StateAt(h, j), h.turns[j]);
  }

  /** Between two frames with no successful Resize, the size believed in stays that of the first,
      or becomes native when the ladder is given up. */
  lemma {:induction false} SizeSince(h: Session, i: nat, j: nat)
    requires Turns(h.turns) && i < j <= |h.turns| && SentAt(h, i).Some? && NoneResized(h, i + 1, j)
    ensures var shown, gaveUp := SentAt(h, i).value.display, exists k :: i < k < j && GivesUpAt(h, k);
            && StateAt(h, j).cur == (if gaveUp then h.native else shown)
            && (gaveUp ==> shown != h.native)
  {
    hide StateAt, ResizePhase, ResizesAt, Step, Emitted, SizesTold;
    StateNext(h, j - 1);
    StateTold(h, j - 1);
    if j > i + 1 {
      SizeSince(h, i, j - 1);
      SizeThroughTurn(h, j - 1);
    } else {
      ShownIsBelieved(StateAt(h, i), h.turns[i]);
    }
  }

  lemma ShownIsBelieved(s: State, t: Turn)
    requires Emitted(s, t).Some?
    ensures s.running && t.captured
    ensures Emitted(s, t).value.display == Step(s, t).cur == ResizePhase(s, t.resize).cur
  {
    hide ResizePhase, Tick;
  }

  lemma SizeThroughTurn(h: Session, k: nat)
    requires Turns(h.turns) && k < |h.turns| && !ResizedAt(h, k)
    ensures StateAt(h, k + 1).cur == if GivesUpAt(h, k) then h.native else StateAt(h, k).cur
    ensures GivesUpAt(h, k) ==> StateAt(h, k).cur != h.native
  {
    hide StateAt, LadderSize, Tick, SizesTold;
    StateNext(h, k);
    StateTold(h, k);
  }

  lemma NotDueNotResized(h: Session, i: nat, j: nat)
    requires i < j < |h.turns| && Quiet(h, i + 1, j) && !Due(h, j)
    ensures NoneResized(h, i + 1, j + 1)
  {
    hide SentAt, ResizedAt, RequestedAt;
    forall k | i + 1 <= k < j + 1 ensures !ResizedAt(h, k) {
      assert k < j ==> Quiet(h, k, j);
    }
  }

  /** Of two frames sent one after the other, the second shows another size without the keyframe
      flag if and only if the ladder was given up between them, nothing made a keyframe due and
      the encoder made no IDR frame. */
  lemma UnannouncedIff(h: Session, i: nat, j: nat)
    requires Turns(h.turns) && i < j < |h.turns|
    requires SentAt(h, i).Some? && SentAt(h, j).Some? && Quiet(h, i + 1, j)
    ensures var f, g := SentAt(h, i).value, SentAt(h, j).value;
            g.display != f.display && !g.keyframe <==>
              (exists k :: i < k <= j && GivesUpAt(h, k)) && !Due(h, j) && !h.turns[j].encode.idr
  {
    hide StateAt, Due, Quiet, Emitted, GivesUpAt, ResizePhase, Step;
    KeyframeIff(h, j);
    if !Due(h, j) {
      NotDueNotResized(h, i, j);
      SizeSince(h, i, j + 1);
      StateNext(h, j);
      ShownIsBelieved(StateAt(h, j), h.turns[j]);
      assert (exists k :: i < k < j + 1 && GivesUpAt(h, k)) <==> (exists k :: i < k <= j && GivesUpAt(h, k));
    }
  }

  // ---------------------------------------------------------- what encoders do here

  /** No encoder stays on at a reduced size after a Resize that failed: the hardware encoders have
      been stopped by then, the null encoder never fails, and one without Resize is never reduced. */
  ghost predicate NoneStaysReduced(h: Session) {
    forall k :: 0 <= k < |h.turns| && ResizesAt(h, k) && h.turns[k].resize.RefusedKept? ==> StateAt(h, k).cur == h.native
  }

  lemma GivingUpSilences(h: Session, k: nat)
    requires NoneStaysReduced(h) && Turns(h.turns) && k < |h.turns| && GivesUpAt(h, k)
    ensures StateAt(h, k + 1).enc.Silent?
  {
    hide StateAt, LadderSize, Tick, SizesTold;
    StateNext(h, k);
    StateTold(h, k);
  }

  lemma SilentUntilResized(h: Session, j: nat)
    requires Turns(h.turns) && j < |h.turns| && StateAt(h, j).enc.Silent? && !ResizedAt(h, j)
    ensures StateAt(h, j + 1).enc.Silent? && SentAt(h, j).None?
  {
    hide StateAt, LadderSize, Tick;
    StateNext(h, j);
  }

  lemma {:induction false} GivenUpIsSilent(h: Session, j: nat)
    requires NoneStaysReduced(h) && Turns(h.turns) && j <= |h.turns| && GivenUp(h, j)
    ensures StateAt(h, j).enc.Silent?
  {
    hide StateAt, ResizedAt, GivesUpAt, NoneStaysReduced, GivenUp;
    if j == 0 {
      NotMisledAtStart(h);
    } else {
      GivenUpNext(h, j - 1);
      if GivesUpAt(h, j - 1) {
        GivingUpSilences(h, j - 1);
      } else {
        GivenUpIsSilent(h, j - 1);
        SilentUntilResized(h, j - 1);
      }
    }
  }

  lemma SendsAlive(h: Session, j: nat)
    requires Turns(h.turns) && j < |h.turns| && SentAt(h, j).Some?
    ensures StateAt(h, j + 1).enc.Alive?
  {
    hide StateAt, ResizePhase, Tick;
    StateNext(h, j);
  }

  /** With such encoders every frame of every run reports exactly the size it was encoded at. */
  lemma ReportedSizesAreEncodedSizes(h: Session, j: nat)
    requires Turns(h.turns) && NoneStaysReduced(h) && j < |h.turns| && SentAt(h, j).Some?
    ensures var f := SentAt(h, j).value; OnLadder(h.native, f.display) && f.display == f.encoded
  {
    hide SentAt, OnLadder, GivenUp, NoneStaysReduced, StateAt;
    MisreportIff(h, j);
    SendsAlive(h, j);
    if GivenUp(h, j + 1) { GivenUpIsSilent(h, j + 1); }
  }

  /** And every change of the reported size comes with the keyframe flag. */
  lemma SizeChangesAtKeyframes(h: Session, i: nat, j: nat)
    requires Turns(h.turns) && NoneStaysReduced(h) && i < j < |h.turns|
    requires SentAt(h, i).Some? && SentAt(h, j).Some? && Quiet(h, i + 1, j)
    ensures SentAt(h, j).value.display != SentAt(h, i).value.display ==> SentAt(h, j).value.keyframe
  {
    hide SentAt, StateAt, NoneStaysReduced, GivesUpAt, Due, GivenUp;
    UnannouncedIff(h, i, j);
    if !Due(h, j) && exists k :: i < k <= j && GivesUpAt(h, k) {
      var k :| i < k <= j && GivesUpAt(h, k);
      NotDueNotResized(h, i, j);
      SendsAlive(h, j);
      assert NoneResized(h, k + 1, j + 1);
      GivenUpBy(h, k, j + 1);
      GivenUpIsSilent(h, j + 1);
    }
  }

  lemma GivenUpBy(h: Session, k: nat, j: nat)
    requires k < j <= |h.turns| && GivesUpAt(h, k) && NoneResized(h, k + 1, j)
    ensures GivenUp(h, j)
  {
  }

  // -------------------------------------------------- whether and at what size a frame is sent

  /** Turn j has something to send, and fails to send it. */
  predicate SendFailsAt(h: Session, j: nat)
    requires j < |h.turns|
  {
    h.turns[j].captured && h.turns[j].encode.Frame? && !Off(h, j + 1) && !h.turns[j].sendOk
  }

  /** Before turn j, a failed Resize has stopped the encoder and none has succeeded since. */
  predicate Off(h: Session, j: nat)
    requires j <= |h.turns|
  {
    exists i :: 0 <= i < j && StoppedAt(h, i) && forall k :: i < k < j ==> !ResizedAt(h, k)
  }

  predicate StoppedAt(h: Session, j: nat)
    requires j < |h.turns|
  {
    ResizesAt(h, j) && h.turns[j].resize.RefusedSilent?
  }

  lemma OffNext(h: Session, j: nat)
    requires j < |h.turns|
    ensures Off(h, j + 1) <==> StoppedAt(h, j) || (Off(h, j) && !ResizedAt(h, j))
  {
    hide StateAt, ResizedAt, StoppedAt;
    if Off(h, j + 1) && !StoppedAt(h, j) {
      var i :| 0 <= i < j + 1 && StoppedAt(h, i) && forall k :: i < k < j + 1 ==> !ResizedAt(h, k);
      assert i < j && !ResizedAt(h, j);
    }
    if Off(h, j) && !ResizedAt(h, j) {
      var i :| 0 <= i < j && StoppedAt(h, i) && forall k :: i < k < j ==> !ResizedAt(h, k);
      assert i < j + 1 && StoppedAt(h, i) && forall k :: i < k < j + 1 ==> !ResizedAt(h, k);
    }
  }

  lemma EncoderThroughTurn(s: State, t: Turn)
    ensures var wanted := s.running && t.captured && ResizeWanted(s).Some?;
            && (Step(s, t).enc.Silent? <==>
                 (wanted && t.resize.RefusedSilent?) || (s.enc.Silent? && !(wanted && t.resize.Resized?)))
            && (s.running && t.captured ==> ResizePhase(s, t.resize).enc == Step(s, t).enc)
  {
    hide LadderSize, Tick;
  }

  lemma {:induction false} OffIff(h: Session, j: nat)
    requires Turns(h.turns) && j <= |h.turns|
    ensures StateAt(h, j).enc.Silent? <==> Off(h, j)
    decreases j
  {
    hide StateAt, Step, ResizeWanted, Off;
    if j > 0 {
      OffIff(h, j - 1);
      StateNext(h, j - 1);
      EncoderThroughTurn(StateAt(h, j - 1), h.turns[j - 1]);
      OffNext(h, j - 1);
    } else {
      FirstState(h);
      NotOffAtFirst(h);
    }
  }

  lemma NotOffAtFirst(h: Session)
    ensures !Off(h, 0)
  {
  }

  lemma RunningNext(s: State, t: Turn)
    ensures Step(s, t).running <==>
              s.running && !(t.captured && t.encode.Frame? && Step(s, t).enc.Alive? && !t.sendOk) && t.clientThere
    ensures Emitted(s, t).Some? <==>
              s.running && t.captured && t.encode.Frame? && Step(s, t).enc.Alive? && t.sendOk
  {
    hide LadderSize, Tick;
  }

  /** In every run the loop is still going if and only if no send has failed and the tablet was
      there at the end of every turn so far. */
  lemma {:induction false} RunningIff(h: Session, j: nat)
    requires Turns(h.turns) && j <= |h.turns|
    ensures StateAt(h, j).running <==> forall i :: 0 <= i < j ==> !SendFailsAt(h, i) && h.turns[i].clientThere
    decreases j
  {
    hide StateAt, Step, Off;
    if j > 0 {
      RunningIff(h, j - 1);
      StateNext(h, j - 1);
      OffIff(h, j);
      RunningNext(StateAt(h, j - 1), h.turns[j - 1]);
      assert SendFailsAt(h, j - 1) <==>
        h.turns[j - 1].captured && h.turns[j - 1].encode.Frame? && StateAt(h, j).enc.Alive? && !h.turns[j - 1].sendOk;
    } else {
      FirstState(h);
    }
  }

  /** In every run a turn sends a frame if and only if the loop is still going, a picture was
      captured and encoded, the encoder is not off, and the send succeeds. */
  lemma SentIff(h: Session, j: nat)
    requires Turns(h.turns) && j < |h.turns|
    ensures SentAt(h, j).Some? <==>
              && (forall i :: 0 <= i < j ==> !SendFailsAt(h, i) && h.turns[i].clientThere)
              && h.turns[j].captured && h.turns[j].encode.Frame? && !Off(h, j + 1) && h.turns[j].sendOk
  {
    hide StateAt, Step, Off, SendFailsAt, Emitted;
    RunningIff(h, j);
    StateNext(h, j);
    OffIff(h, j + 1);
    RunningNext(StateAt(h, j), h.turns[j]);
  }

  /** In every run a frame is sent at the ladder size of the controller's step, as it stands after
      the turn's Resize; except that it is not if and only if going back to native was asked for,
      at the top of the ladder, and failed. */
  lemma DisplayIsLadderSizeIff(h: Session, j: nat)
    requires Turns(h.turns) && j < |h.turns| && SentAt(h, j).Some?
    ensures var s, p := StateAt(h, j), ResizePhase(StateAt(h, j), h.turns[j].resize);
            SentAt(h, j).value.display == LadderSize(h.native, p.ctl.scaleIdx) <==>
              !(s.ctl.scaleIdx == 0 && s.cur != h.native && !h.turns[j].resize.Resized?)
  {
    hide StateAt;
    StateTold(h, j);
    assert LadderSize(h.native, 0) == h.native;
    hide OnLadder, LadderSize;
  }

  /** The step itself moves by the controller alone: after a frame sent with adaptation on it is the
      controller's next, and otherwise it stays; a Resize that fails below the top sets it to 0. */
  lemma ControllerIff(h: Session, j: nat)
    requires Turns(h.turns) && j < |h.turns|
    ensures var s, t, before := StateAt(h, j), h.turns[j], StateAt(h, j).ctl;
            var fails := ResizesAt(h, j) && !t.resize.Resized? && before.scaleIdx > 0;
            var c := if fails then before.(scaleIdx := 0) else before;
            StateAt(h, j + 1).ctl == if SentAt(h, j).Some? && h.adaptive then Tick(c, t.sendMs) else c
  {
    hide StateAt, LadderSize, Tick;
    StateTold(h, j);
    StateNext(h, j);
  }

  // ---------------------------------------------------------------------- textures

  /** The texture handed to the encoder has the encoder's size if and only if the size reported
      is true and the frame is native, or the ladder is below its top and the scaler worked. */
  lemma TextureFitsIff(h: Session, j: nat)
    requires Turns(h.turns) && j < |h.turns| && SentAt(h, j).Some?
    ensures var f, p := SentAt(h, j).value, ResizePhase(StateAt(h, j), h.turns[j].resize);
            f.texture == f.encoded <==>
              f.display == f.encoded && (f.display == h.native || (p.ctl.scaleIdx > 0 && h.turns[j].scaled))
  {
    hide StateAt, ResizePhase, LadderSize;
    StateTold(h, j);
    SizesThroughResize(StateAt(h, j), h.turns[j].resize);
  }

  /** With the encoders there are, that is: if and only if the scaler worked or was not needed. */
  lemma TextureFits(h: Session, j: nat)
    requires Turns(h.turns) && NoneStaysReduced(h) && j < |h.turns| && SentAt(h, j).Some?
    ensures var f := SentAt(h, j).value;
            f.texture == f.encoded <==> f.display == h.native || h.turns[j].scaled
  {
    hide StateAt, SizesTold;
    TextureFitsIff(h, j);
    ReportedSizesAreEncodedSizes(h, j);
    StateTold(h, j);
    BelowTopOrNative(h, j);
  }

  lemma BelowTopOrNative(h: Session, j: nat)
    requires Turns(h.turns) && NoneStaysReduced(h) && j < |h.turns| && SentAt(h, j).Some?
    ensures var p := ResizePhase(StateAt(h, j), h.turns[j].resize); p.ctl.scaleIdx > 0 || p.cur == h.native
  {
    hide StateAt;
    StateTold(h, j);
  }

  // ------------------------------------------------------------ when the video is over

  /** A turn in which everything works. */
  function GoodTurn(): Turn {
    Turn(true, Resized, true, Frame(false), true, 0.0, false, true)
  }

  lemma GoodTurnSends(r: Run)
    requires Inv(r) && r.state.running && !(r.state.enc.Silent? && r.state.cur == r.state.native)
    ensures Advance(r, GoodTurn()).sent != r.sent
  {
    hide MovesTold, Tick, Moves, OnLadder;
  }

  lemma {:induction false} SilentForGood(r: Run, ts: seq<Turn>)
    requires Inv(r) && Turns(ts) && r.state.enc.Silent? && r.state.cur == r.state.native
    ensures var a := Continue(r, ts); a.sent == r.sent && a.state.enc.Silent? && a.state.cur == a.state.native
    decreases |ts|
  {
    hide Tick, MovesTold, OnLadder;
    if ts != [] {
      InvHolds(r, ts[..|ts| - 1]);
      SilentForGood(r, ts[..|ts| - 1]);
    }
  }

  /** In every run that is still going: no frame can ever follow, whatever encoder, scaler, link
      and tablet do, if and only if the encoder is off while the loop believes it native. */
  lemma VideoIsOverIff(native: Size, adaptive: bool, ts: seq<Turn>)
    requires Turns(ts) && After(native, adaptive, ts).state.running
    ensures var r := After(native, adaptive, ts);
            (forall more :: Turns(more) ==> Continue(r, more).sent == r.sent)
            <==> r.state.enc.Silent? && r.state.cur == native
  {
    hide Inv, After, Advance;
    var r := After(native, adaptive, ts);
    RunInv(native, adaptive, ts);
    if r.state.enc.Silent? && r.state.cur == native {
      forall more | Turns(more) ensures Continue(r, more).sent == r.sent { SilentForGood(r, more); }
    } else {
      GoodTurnSends(r);
      var more := [GoodTurn()];
      assert Turns(more) && more[..0] == [] && Continue(r, []) == r;
      assert Continue(r, more) == Advance(Continue(r, more[..0]), GoodTurn());
    }
  }

  /** A Resize below the top of the ladder that stops the encoder is such an end. */
  lemma FailureBelowTopEndsVideo(h: Session, j: nat, more: seq<Turn>)
    requires Turns(h.turns) && Turns(more) && j < |h.turns|
    requires ResizesAt(h, j) && h.turns[j].resize.RefusedSilent? && StateAt(h, j).ctl.scaleIdx > 0
    ensures var r := After(h.native, h.adaptive, h.turns[..j + 1]);
            Continue(r, more).sent == After(h.native, h.adaptive, h.turns[..j]).sent
  {
    hide Inv, After, Continue, Advance, Tick, LadderSize;
    FrameIsInRun(h, j);
    StateNext(h, j);
    RunInv(h.native, h.adaptive, h.turns[..j + 1]);
    SilentForGood(After(h.native, h.adaptive, h.turns[..j + 1]), more);
  }

  /** The hardware encoders: a Resize that fails has stopped the encoder, and one that is stopped
      refuses every further Resize. */
  ghost predicate StopsForGood(h: Session) {
    forall k :: 0 <= k < |h.turns| && ResizesAt(h, k) ==>
      && !h.turns[k].resize.RefusedKept?
      && (StateAt(h, k).enc.Silent? ==> !h.turns[k].resize.Resized?)
  }

  ghost predicate FailedBefore(h: Session, j: nat)
    requires j <= |h.turns|
  {
    exists k :: 0 <= k < j && ResizesAt(h, k) && !ResizedAt(h, k)
  }

  lemma EncoderNext(s: State, t: Turn)
    requires s.running && t.captured && ResizeWanted(s).Some? ==>
               !t.resize.RefusedKept? && (s.enc.Silent? ==> !t.resize.Resized?)
    ensures Step(s, t).enc.Silent? <==>
              s.enc.Silent? || (s.running && t.captured && ResizeWanted(s).Some? && !t.resize.Resized?)
  {
    hide LadderSize, Tick;
  }

  lemma {:induction false} SilentIff(h: Session, j: nat)
    requires Turns(h.turns) && StopsForGood(h) && j <= |h.turns|
    ensures StateAt(h, j).enc.Silent? <==> FailedBefore(h, j)
  {
    hide StateAt, Step, ResizeWanted;
    if j > 0 {
      SilentIff(h, j - 1);
      StateNext(h, j - 1);
      EncoderNext(StateAt(h, j - 1), h.turns[j - 1]);
      assert FailedBefore(h, j) <==> FailedBefore(h, j - 1) || (ResizesAt(h, j - 1) && !ResizedAt(h, j - 1));
    } else {
      FirstState(h);
    }
  }

  lemma FirstState(h: Session)
    ensures StateAt(h, 0) == Init(h.native, h.adaptive)
  {
    assert h.turns[..0] == [];
  }

  /** With a hardware encoder the first Resize that fails, down the ladder or back to native, ends
      the video: no turn from that one on sends a frame. */
  lemma FailedResizeEndsVideo(h: Session, i: nat, j: nat)
    requires Turns(h.turns) && StopsForGood(h) && i <= j < |h.turns|
    requires ResizesAt(h, i) && !ResizedAt(h, i)
    ensures SentAt(h, j).None?
  {
    hide StateAt, SentAt, ResizesAt;
    SilentIff(h, j + 1);
    if SentAt(h, j).Some? { SendsAlive(h, j); }
  }
}
