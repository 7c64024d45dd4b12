/** The ladder and its controller over every run of the host's main loop. */
module HostLoopRuns {
  import opened Controller
  import opened HostLoop

  // ------------------------------------------------------------------ the ladder

  lemma RungsDescend(n: nat)
    ensures EvenFloor(n * 3 / 8) <= EvenFloor(n * 4 / 8) <= EvenFloor(n * 6 / 8) <= n
    ensures EvenFloor(n * 3 / 8) > 0 <==> n >= 6
  {
    assert n * 3 / 8 <= n * 4 / 8 <= n * 6 / 8 <= n;
    assert n >= 6 <==> n * 3 / 8 >= 2;
  }

  /** The sizes go down the ladder without ever growing, and below native they are even. */
  lemma LadderDescends(native: Size, i: int, j: int)
    requires 0 <= i <= j < LADDER_STEPS
    ensures var a, b := LadderSize(native, i), LadderSize(native, j);
            && b.w <= a.w <= native.w && b.h <= a.h <= native.h
            && (j > 0 ==> b.w % 2 == 0 && b.h % 2 == 0)
  {
    RungsDescend(native.w);
    RungsDescend(native.h);
    hide EvenFloor;
  }

  /** n is the largest even number that is at most `num / den` of `of`. */
  ghost predicate EvenPart(n: nat, num: nat, den: nat, of: nat) {
    n % 2 == 0 && den * n <= num * of < den * (n + 2)
  }

  /** The ladder: native, and below it the even dimensions next to three quarters, a half and three
      eighths of native. */
  lemma LadderSizesAre(native: Size)
    ensures LadderSize(native, 0) == native
    ensures var s := LadderSize(native, 1); EvenPart(s.w, 3, 4, native.w) && EvenPart(s.h, 3, 4, native.h)
    ensures var s := LadderSize(native, 2); EvenPart(s.w, 1, 2, native.w) && EvenPart(s.h, 1, 2, native.h)
    ensures var s := LadderSize(native, 3); EvenPart(s.w, 3, 8, native.w) && EvenPart(s.h, 3, 8, native.h)
  {
    EvenParts(native.w);
    EvenParts(native.h);
    hide EvenFloor, EvenPart;
  }

  lemma EvenParts(n: nat)
    ensures EvenPart(EvenFloor(n * 6 / 8), 3, 4, n) && EvenPart(EvenFloor(n * 4 / 8), 1, 2, n)
    ensures EvenPart(EvenFloor(n * 3 / 8), 3, 8, n)
  {
  }

  /** No step of the ladder is empty exactly when both native dimensions are at least 6. */
  lemma LadderNonZeroIff(native: Size)
    ensures (forall k :: 0 <= k < LADDER_STEPS ==> LadderSize(native, k).w > 0 && LadderSize(native, k).h > 0)
       <==> native.w >= 6 && native.h >= 6
  {
    RungsDescend(native.w);
    RungsDescend(native.h);
    assert LadderSize(native, 3) == Size(EvenFloor(native.w * 3 / 8), EvenFloor(native.h * 3 / 8));
    hide EvenFloor;
  }

  // ------------------------------------------------------------------- no flapping

  function Cost(moves: seq<LadderMove>): nat {
    if moves == [] then 0 else Cost(moves[..|moves| - 1]) + Gap(moves[|moves| - 1])
  }

  lemma {:induction false} CostOfSpaced(moves: seq<LadderMove>)
    requires Spaced(moves)
    ensures Cost(moves) <= LastMove(moves)
    decreases |moves|
  {
    if moves != [] {
      var m := moves[..|moves| - 1];
      forall k | 0 <= k < |m| ensures m[k].at >= LastMove(m[..k]) + Gap(m[k]) {
        assert m[..k] == moves[..k] && m[k] == moves[k];
      }
      CostOfSpaced(m);
    }
  }

  function Downs(moves: seq<LadderMove>): nat {
    if moves == [] then 0 else Downs(moves[..|moves| - 1]) + (if moves[|moves| - 1].down then 1 else 0)
  }

  lemma {:induction false} CostIsWeightedCount(moves: seq<LadderMove>)
    ensures Downs(moves) <= |moves|
    ensures Cost(moves) == SEND_UP_FRAMES * Downs(moves) + SEND_DOWN_FRAMES * (|moves| - Downs(moves))
  {
    if moves != [] {
      CostIsWeightedCount(moves[..|moves| - 1]);
    }
  }

  /** In every run: 45 frames for each step down, 150 for each step up, and both streaks fit in
      the frames sent; at most one streak is running; and every step up comes at least 150
      frames, every step down at least 45, after the step before it (or the start). */
  lemma NoFlapping(native: Size, adaptive: bool, ts: seq<Turn>)
    requires Turns(ts)
    ensures var r := After(native, adaptive, ts); var d := Downs(r.moves);
            && 0 <= r.state.ctl.scaleIdx < LADDER_STEPS
            && 45 * d + 150 * (|r.moves| - d) + r.state.ctl.up + r.state.ctl.down <= |r.sent|
            && (r.state.ctl.up == 0 || r.state.ctl.down == 0)
            && (forall k :: 0 <= k < |r.moves| ==>
                  r.moves[k].at >= (if k == 0 then 0 else r.moves[k - 1].at) + (if r.moves[k].down then 45 else 150))
  {
    var r := After(native, adaptive, ts);
    RunInv(native, adaptive, ts);
    hide OnLadder, After;
    CostOfSpaced(r.moves);
    CostIsWeightedCount(r.moves);
    forall k | 0 <= k < |r.moves|
      ensures r.moves[k].at >= (if k == 0 then 0 else r.moves[k - 1].at) + (if r.moves[k].down then 45 else 150)
    {
      assert r.moves[k].at >= LastMove(r.moves[..k]) + Gap(r.moves[k]);
    }
  }

  // ------------------------------------------------------------------ convergence

  /** The send times of the frames a continuation sends. */
  function Times(r: Run, ts: seq<Turn>): seq<real>
    decreases |ts|
  {
    if ts == [] then []
    else
      var n := |ts| - 1;
      Times(r, ts[..n]) +
      (if |Continue(r, ts).sent| > |Continue(r, ts[..n]).sent| then [ts[n].sendMs] else [])
  }

  lemma CtlOfAdvance(r: Run, t: Turn)
    requires Inv(r) && Timed(t) && r.state.adaptive
    ensures var a := Advance(r, t);
            && (a.sent == r.sent || |a.sent| == |r.sent| + 1)
            && (t.resize.Resized? ==> a.state.ctl == if a.sent == r.sent then r.state.ctl else Tick(r.state.ctl, t.sendMs))
            && (a.sent == r.sent ==> a.state.ctl == r.state.ctl || a.state.ctl == r.state.ctl.(scaleIdx := 0))
            && (a.sent != r.sent ==>
                  || a.state.ctl == Tick(r.state.ctl, t.sendMs)
                  || a.state.ctl == Tick(r.state.ctl.(scaleIdx := 0), t.sendMs))
  {
    hide MovesTold, SizesTold, Tick, LadderSize, Moves;
  }

  lemma {:induction false} CtlOfContinue(r: Run, ts: seq<Turn>)
    requires Inv(r) && Turns(ts) && r.state.adaptive
    requires forall k :: 0 <= k < |ts| ==> ts[k].resize.Resized?
    ensures Continue(r, ts).state.ctl == Ticks(r.state.ctl, Times(r, ts))
    ensures |Continue(r, ts).sent| == |r.sent| + |Times(r, ts)|
    decreases |ts|
  {
    hide Advance, Tick, Inv;
    if ts != [] {
      var n := |ts| - 1;
      CtlOfContinue(r, ts[..n]);
      InvHolds(r, ts[..n]);
      CtlOfAdvance(Continue(r, ts[..n]), ts[n]);
      var a := Times(r, ts[..n]);
      assert (a + [ts[n].sendMs])[..|a|] == a && a + [] == a;
    }
  }

  lemma {:induction false} TimesComeFromTurns(r: Run, ts: seq<Turn>, lo: real)
    requires forall k :: 0 <= k < |ts| ==> ts[k].sendMs >= lo
    ensures AllAtLeast(Times(r, ts), lo)
    decreases |ts|
  {
    if ts != [] {
      TimesComeFromTurns(r, ts[..|ts| - 1], lo);
    }
  }

  lemma InvSane(r: Run)
    requires Inv(r)
    ensures Sane(r.state.ctl)
  {
  }

  /** Sustained congestion, in the loop: from any point of any run with adaptation on, whatever
      captures and encodes fail, once 141 frames have each taken 36 ms or more and no Resize has
      failed, the ladder is at its bottom, and it stays there. */
  lemma CongestionReachesBottomInLoop(r: Run, ts: seq<Turn>)
    requires Inv(r) && Turns(ts) && r.state.adaptive
    requires forall k :: 0 <= k < |ts| ==> ts[k].resize.Resized? && ts[k].sendMs >= 36.0
    requires |Continue(r, ts).sent| >= |r.sent| + 141
    ensures Continue(r, ts).state.ctl.scaleIdx == LADDER_STEPS - 1
  {
    hide Inv, Continue, Times;
    InvSane(r);
    CtlOfContinue(r, ts);
    TimesComeFromTurns(r, ts, 36.0);
    CongestionReachesBottom(r.state.ctl, Times(r, ts));
  }

  lemma {:induction false} AscentInLoop(r: Run, ts: seq<Turn>)
    requires Inv(r) && Turns(ts) && r.state.adaptive
    requires forall k :: 0 <= k < |ts| ==> ts[k].sendMs <= 3.0
    ensures var c, d := r.state.ctl, Continue(r, ts).state.ctl;
            var n := |Continue(r, ts).sent| - |r.sent|;
            && n >= 0
            && SettleTime(d.avg) <= (if n < SettleTime(c.avg) then SettleTime(c.avg) - n else 0)
            && (n > SettleTime(c.avg) ==> Ascent(d) >= n - SettleTime(c.avg) || d.scaleIdx == 0)
    decreases |ts|
  {
    hide Advance, Tick, SettleTime;
    if ts != [] {
      var k := |ts| - 1;
      var b := Continue(r, ts[..k]);
      AscentInLoop(r, ts[..k]);
      InvHolds(r, ts[..k]);
      CtlOfAdvance(b, ts[k]);
      var c := b.state.ctl;
      ClearStep(c, ts[k].sendMs);
      ClearStep(c.(scaleIdx := 0), ts[k].sendMs);
    }
  }

  lemma ClearStep(c: Ctl, ms: real)
    requires Sane(c) && 0.0 <= ms <= 3.0
    ensures var d := Tick(c, ms);
            && (SettleTime(c.avg) > 0 ==> SettleTime(d.avg) <= SettleTime(c.avg) - 1)
            && (SettleTime(c.avg) == 0 ==> SettleTime(d.avg) == 0)
            && (SettleTime(c.avg) == 0 ==> if c.scaleIdx == 0 then d.scaleIdx == 0 else Ascent(d) == Ascent(c) + 1)
  {
    hide Tick;
    QuickTick(c, ms);
    if SettleTime(c.avg) == 0 {
      assert c.avg < SEND_DOWN_MS;
      ClearTick(c, ms);
    }
  }

  /** A cleared link, in the loop: from any point of any run with adaptation on, once send times
      stay at 3 ms or less, the native size is asked for again within the settling time of the
      average and 450 frames, and the ladder stays at its top, whether or not resizes fail. */
  lemma ClearingReachesTopInLoop(r: Run, ts: seq<Turn>)
    requires Inv(r) && Turns(ts) && r.state.adaptive
    requires forall k :: 0 <= k < |ts| ==> ts[k].sendMs <= 3.0
    requires |Continue(r, ts).sent| >= |r.sent| + SettleTime(r.state.ctl.avg) + 450
    ensures Continue(r, ts).state.ctl.scaleIdx == 0
  {
    hide Inv, Continue, SettleTime;
    InvHolds(r, ts);
    InvSane(Continue(r, ts));
    AscentInLoop(r, ts);
  }

  // --------------------------------------------------------- the record of the moves

  lemma DownsSnoc(moves: seq<LadderMove>, m: LadderMove)
    ensures Downs(moves + [m]) == Downs(moves) + (if m.down then 1 else 0)
  {
    assert (moves + [m])[..|moves|] == moves;
  }

  lemma MoveRecorded(r: Run, t: Turn)
    requires Inv(r) && Timed(t) && t.resize.Resized?
    ensures var a := Advance(r, t);
            if a.state.ctl.scaleIdx == r.state.ctl.scaleIdx then a.moves == r.moves
            else
              && a.moves == r.moves + [LadderMove(|r.sent| + 1, a.state.ctl.scaleIdx > r.state.ctl.scaleIdx)]
              && a.state.ctl.scaleIdx - r.state.ctl.scaleIdx in {1, -1}
  {
    hide SizesTold, MovesTold, LadderSize;
  }

  /** The record is true: where no Resize fails, the step of the ladder is the number of moves down
      less the number of moves up. */
  lemma {:induction false} IndexIsDownsLessUps(native: Size, adaptive: bool, ts: seq<Turn>)
    requires Turns(ts) && forall k :: 0 <= k < |ts| ==> ts[k].resize.Resized?
    ensures var r := After(native, adaptive, ts); r.state.ctl.scaleIdx == Downs(r.moves) - (|r.moves| - Downs(r.moves))
    decreases |ts|
  {
    hide Advance, Inv;
    if ts != [] {
      var n := |ts| - 1;
      IndexIsDownsLessUps(native, adaptive, ts[..n]);
      RunInv(native, adaptive, ts[..n]);
      var r := After(native, adaptive, ts[..n]);
      MoveRecorded(r, ts[n]);
      DownsSnoc(r.moves, LadderMove(|r.sent| + 1, true));
      DownsSnoc(r.moves, LadderMove(|r.sent| + 1, false));
    }
  }
}
