/** The video half of the host's main loop (host/src/main.cpp): resize, encode, send, and the
    controller that reacts to how long the send took. */
module HostLoop {
  import opened Bytes
  import opened Controller

  datatype Size = Size(w: nat, h: nat)

  /** Numerators, in eighths, of the ladder factors 1.0, 0.75, 0.5 and 0.375. (No run leaves the
      table: the index is always 0..3.) */
  function Eighths(idx: int): nat {
    if 0 <= idx < LADDER_STEPS then [8, 6, 4, 3][idx] else 8
  }

  function EvenFloor(n: nat): (e: nat)
    ensures e % 2 == 0 && e <= n < e + 2
  {
    n - n % 2
  }

  /** The encode size of a ladder step: native at the top, even dimensions below. */
  function LadderSize(native: Size, idx: int): Size {
    if idx == 0 then native
    else Size(EvenFloor(native.w * Eighths(idx) / 8), EvenFloor(native.h * Eighths(idx) / 8))
  }

  /** What the encoder is set up for; `Silent` once a failed re-initialisation has torn it down. */
  datatype Encoder = Alive(size: Size) | Silent

  /** What a call of Resize can do: succeed; refuse and leave the encoder as it was; or fail
      half-way, after which nothing is encoded until a later Resize succeeds. */
  datatype ResizeResult = Resized | RefusedKept | RefusedSilent

  datatype EncodeResult = NoFrame | Frame(idr: bool)

  /** Everything one turn of the loop takes from outside. `Frame`: Encode succeeded and there is
      something to send. `scaled`: the GPU scaler returned a texture. */
  datatype Turn = Turn(
    captured: bool, resize: ResizeResult, scaled: bool, encode: EncodeResult, sendOk: bool, sendMs: real,
    keyframeRequested: bool, clientThere: bool)

  datatype State = State(
    native: Size, adaptive: bool, cur: Size, ctl: Ctl, keyframePending: bool, enc: Encoder, running: bool)

  /** A frame on its way to the tablet: its flag and the size it is said to have; and the sizes of
      the encoder that made it and of the texture that encoder was given. */
  datatype VideoFrame = VideoFrame(keyframe: bool, display: Size, encoded: Size, texture: Size)

  function Init(native: Size, adaptive: bool): State {
    State(native, adaptive, native, Ctl(0, 0.0, 0, 0), true, Alive(native), true)
  }

  function EncoderAfter(e: Encoder, r: ResizeResult, size: Size): Encoder {
    match r
    case Resized => Alive(size)
    case RefusedKept => e
    case RefusedSilent => Silent
  }

  /** Which size, if any, this turn asks the encoder for. */
  function ResizeWanted(s: State): Option<Size> {
    if !s.adaptive then None
    else
      var target := LadderSize(s.native, s.ctl.scaleIdx);
      if target == s.cur then None else Some(target)
  }

  /** The resize phase. A refusal on the way down abandons the ladder and reports native; a
      refusal on the way back to native changes nothing, to be tried again. */
  function ResizePhase(s: State, r: ResizeResult): State {
    var want := ResizeWanted(s);
    if want.None? then s
    else
      var t := s.(enc := EncoderAfter(s.enc, r, want.value));
      if r.Resized? then t.(cur := want.value, keyframePending := true)
      else if s.ctl.scaleIdx > 0 then t.(ctl := s.ctl.(scaleIdx := 0), cur := s.native)
      else t
  }

  function Sends(s: State, t: Turn): bool {
    t.encode.Frame? && s.enc.Alive?
  }

  /** The texture to encode: a downscaled copy below the top of the ladder, and the captured one at
      the top or when there is no copy. */
  function Texture(s: State, t: Turn): Size {
    if s.adaptive && s.ctl.scaleIdx > 0 && t.scaled then s.cur else s.native
  }

  function FrameOf(s: State, t: Turn): VideoFrame
    requires Sends(s, t)
  {
    VideoFrame(s.keyframePending || t.encode.idr, s.cur, s.enc.size, Texture(s, t))
  }

  /** Encode and send, in a state whose resize phase is over. */
  function SendPhase(s: State, t: Turn): State {
    if !Sends(s, t) then s
    else
      var u := s.(keyframePending := false);
      if !t.sendOk then u.(running := false)
      else if s.adaptive then u.(ctl := Tick(s.ctl, t.sendMs))
      else u
  }

  /** Reading what the tablet sent, and leaving the loop when it is gone. */
  function InboundPhase(s: State, t: Turn): State {
    if !s.running then s
    else s.(keyframePending := s.keyframePending || t.keyframeRequested, running := t.clientThere)
  }

  function CapturePhase(s: State, t: Turn): State {
    if t.captured then SendPhase(ResizePhase(s, t.resize), t) else s
  }

  function Step(s: State, t: Turn): State {
    if !s.running then s else InboundPhase(CapturePhase(s, t), t)
  }

  /** The frame this turn puts on the wire. */
  function Emitted(s: State, t: Turn): Option<VideoFrame> {
    if !s.running || !t.captured then None
    else
      var r := ResizePhase(s, t.resize);
      if Sends(r, t) && t.sendOk then Some(FrameOf(r, t)) else None
  }

  /** The loop's variables, updated turn by turn as the source does. */
  class MainLoop {
    const native: Size
    const adaptive: bool
    var scaleIdx: int
    var cur: Size
    var avgSendMs: real
    var sendUpStreak: nat
    var sendDownStreak: nat
    var keyframePending: bool
    var enc: Encoder
    var running: bool

    ghost function View(): State
      reads this
    {
      State(native, adaptive, cur, Ctl(scaleIdx, avgSendMs, sendUpStreak, sendDownStreak), keyframePending, enc, running)
    }

    constructor (native: Size, adaptive: bool)
      ensures View() == Init(native, adaptive)
    {
      this.native, this.adaptive := native, adaptive;
      scaleIdx, cur := 0, native;
      avgSendMs, sendUpStreak, sendDownStreak := 0.0, 0, 0;
      keyframePending, enc, running := true, Alive(native), true;
    }

    /** The resize phase, and the texture it leaves to be encoded. */
    method Resize(t: Turn) returns (texture: Size)
      requires 0 <= scaleIdx < LADDER_STEPS
      modifies this
      ensures View() == ResizePhase(old(View()), t.resize)
      ensures texture == Texture(View(), t)
    {
      texture := native;
      if adaptive && scaleIdx > 0 {
        var n := Eighths(scaleIdx);
        var nw, nh := EvenFloor(native.w * n / 8), EvenFloor(native.h * n / 8);
        if nw != cur.w || nh != cur.h {
          enc := EncoderAfter(enc, t.resize, Size(nw, nh));
          if t.resize.Resized? {
            cur := Size(nw, nh);
            keyframePending := true;
          } else {
            scaleIdx := 0;
            cur := native;
          }
        }
        if t.scaled {
          texture := cur;
        }
      } else if adaptive && scaleIdx == 0 && (cur.w != native.w || cur.h != native.h) {
        enc := EncoderAfter(enc, t.resize, native);
        if t.resize.Resized? {
          cur := native;
          keyframePending := true;
        }
      }
    }

    method Adapt(sendMs: real)
      modifies this
      ensures View() == old(View()).(ctl := Tick(old(View()).ctl, sendMs))
    {
      avgSendMs := if avgSendMs == 0.0 then sendMs else avgSendMs * 0.9 + sendMs * 0.1;
      if avgSendMs > 18.0 {
        sendUpStreak := sendUpStreak + 1;
        sendDownStreak := 0;
      } else if avgSendMs < 6.0 {
        sendDownStreak := sendDownStreak + 1;
        sendUpStreak := 0;
      } else {
        sendUpStreak := 0;
        sendDownStreak := 0;
      }
      if sendUpStreak >= 45 && scaleIdx < 3 {
        scaleIdx := scaleIdx + 1;
        sendUpStreak := 0;
      } else if sendDownStreak >= 150 && scaleIdx > 0 {
        scaleIdx := scaleIdx - 1;
        sendDownStreak := 0;
      }
    }

    /** One turn of the loop. */
    method TurnOver(t: Turn) returns (sent: Option<VideoFrame>)
      requires 0 <= scaleIdx < LADDER_STEPS
      modifies this
      ensures View() == Step(old(View()), t)
      ensures sent == Emitted(old(View()), t)
    {
      sent := None;
      if !running {
        return;
      }
      if t.captured {
        var texture := Resize(t);
        if t.encode.Frame? && enc.Alive? {
          var keyframe := keyframePending || t.encode.idr;
          keyframePending := false;
          var f := VideoFrame(keyframe, cur, enc.size, texture);
          if !t.sendOk {
            running := false;
            return;
          }
          sent := Some(f);
          if adaptive {
            Adapt(t.sendMs);
          }
        }
      }
      if t.keyframeRequested {
        keyframePending := true;
      }
      if !t.clientThere {
        running := false;
      }
    }
  }

  // ------------------------------------------------------------ runs and their record

  /** A controller step, and how many frames had been sent when it was taken. */
  datatype LadderMove = LadderMove(at: nat, down: bool)

  /** The loop, the frames it has sent and the controller steps it has taken. */
  datatype Run = Run(state: State, sent: seq<VideoFrame>, moves: seq<LadderMove>)

  function Start(native: Size, adaptive: bool): Run {
    Run(Init(native, adaptive), [], [])
  }

  function Moves(r: Run, before: Ctl, after: Ctl): seq<LadderMove> {
    if before.scaleIdx == after.scaleIdx then r.moves
    else r.moves + [LadderMove(|r.sent| + 1, after.scaleIdx > before.scaleIdx)]
  }

  function Advance(r: Run, t: Turn): Run {
    var s' := Step(r.state, t);
    var e := Emitted(r.state, t);
    if e.None? then r.(state := s')
    else Run(s', r.sent + [e.value], Moves(r, ResizePhase(r.state, t.resize).ctl, s'.ctl))
  }

  ghost predicate Timed(t: Turn) { t.sendMs >= 0.0 }

  ghost predicate Turns(ts: seq<Turn>) {
    forall k :: 0 <= k < |ts| ==> Timed(ts[k])
  }

  /** A run continued by more turns. */
  function Continue(r: Run, ts: seq<Turn>): Run
    decreases |ts|
  {
    if ts == [] then r else Advance(Continue(r, ts[..|ts| - 1]), ts[|ts| - 1])
  }

  /** A run of the loop, from its start through any sequence of turns. */
  function After(native: Size, adaptive: bool, ts: seq<Turn>): Run {
    Continue(Start(native, adaptive), ts)
  }

  // ----------------------------------------------------------------- the invariant

  ghost predicate OnLadder(native: Size, size: Size) {
    exists idx :: 0 <= idx < LADDER_STEPS && size == LadderSize(native, idx)
  }

  /** The encoder has the size the loop believes in, unless that is native; and one that was torn
      down has sent the ladder to its top. */
  ghost predicate SizesTold(s: State) {
    && OnLadder(s.native, s.cur)
    && (!s.adaptive ==> s.cur == s.native && s.enc == Alive(s.native) && s.ctl == Ctl(0, 0.0, 0, 0))
    && (s.enc.Alive? && s.enc.size != s.cur ==> s.cur == s.native)
    && (s.enc.Silent? ==> s.ctl.scaleIdx == 0)
  }

  function LastMove(moves: seq<LadderMove>): nat {
    if moves == [] then 0 else moves[|moves| - 1].at
  }

  function Gap(m: LadderMove): nat {
    if m.down then SEND_UP_FRAMES else SEND_DOWN_FRAMES
  }

  /** Every controller step keeps its distance, in frames, from the step before it. */
  ghost predicate Spaced(moves: seq<LadderMove>) {
    forall k :: 0 <= k < |moves| ==> moves[k].at >= LastMove(moves[..k]) + Gap(moves[k])
  }

  ghost predicate MovesTold(r: Run) {
    && Spaced(r.moves)
    && LastMove(r.moves) + r.state.ctl.up + r.state.ctl.down <= |r.sent|
    && (r.state.ctl.up == 0 || r.state.ctl.down == 0)
  }

  ghost predicate Inv(r: Run) {
    Sane(r.state.ctl) && SizesTold(r.state) && MovesTold(r)
  }

  lemma StartInv(native: Size, adaptive: bool)
    ensures Inv(Start(native, adaptive))
  {
    assert native == LadderSize(native, 0);
  }

  lemma SizesThroughResize(s: State, r: ResizeResult)
    requires Sane(s.ctl) && SizesTold(s)
    ensures var p := ResizePhase(s, r);
            Sane(p.ctl) && SizesTold(p) && p.native == s.native && p.adaptive == s.adaptive
  {
    assert s.native == LadderSize(s.native, 0);
  }

  /** The rest of a turn touches neither sizes nor encoder, nor the ladder of an encoder that is off. */
  lemma SizesThroughRest(s: State, t: Turn)
    requires Sane(s.ctl) && Timed(t)
    ensures var e := InboundPhase(SendPhase(s, t), t);
            && Sane(e.ctl) && e.native == s.native && e.adaptive == s.adaptive && e.cur == s.cur && e.enc == s.enc
            && (s.enc.Silent? || !s.adaptive ==> e.ctl == s.ctl)
  {
    TickSane(s.ctl, t.sendMs);
  }

  lemma SizesKept(s: State, t: Turn)
    requires Sane(s.ctl) && Timed(t) && SizesTold(s)
    ensures var e := Step(s, t);
            Sane(e.ctl) && SizesTold(e) && e.native == s.native && e.adaptive == s.adaptive
  {
    hide Tick, LadderSize, ResizePhase, SendPhase;
    SizesThroughResize(s, t.resize);
    SizesThroughRest(ResizePhase(s, t.resize), t);
  }

  lemma SpacedSnoc(moves: seq<LadderMove>, m: LadderMove)
    requires Spaced(moves) && m.at >= LastMove(moves) + Gap(m)
    ensures Spaced(moves + [m])
  {
    var ms := moves + [m];
    forall k | 0 <= k < |ms| ensures ms[k].at >= LastMove(ms[..k]) + Gap(ms[k]) {
      assert ms[..k] == moves[..k];
    }
    assert moves[..|moves|] == moves;
  }

  /** One frame's effect on the streaks: together they grow by at most one, and a ladder step is
      taken on, and ends, a streak of its full length. */
  lemma TickStreaks(c: Ctl, ms: real)
    requires Sane(c) && (c.up == 0 || c.down == 0)
    ensures var d := Tick(c, ms);
            && (d.up == 0 || d.down == 0)
            && (d.scaleIdx == c.scaleIdx ==> d.up + d.down <= c.up + c.down + 1)
            && (d.scaleIdx > c.scaleIdx ==> c.up + 1 >= SEND_UP_FRAMES && d.up == d.down == 0 && c.down == 0)
            && (d.scaleIdx < c.scaleIdx ==> c.down + 1 >= SEND_DOWN_FRAMES && d.up == d.down == 0 && c.up == 0)
  {
  }

  lemma MovesAfterFrame(r: Run, before: Ctl, ms: real, a: Run)
    requires Sane(before) && before.up == r.state.ctl.up && before.down == r.state.ctl.down
    requires MovesTold(r)
    requires |a.sent| == |r.sent| + 1
    requires a.state.ctl == Tick(before, ms) || a.state.ctl == before
    requires a.moves == Moves(r, before, a.state.ctl)
    ensures MovesTold(a)
  {
    hide Spaced, Tick;
    TickStreaks(before, ms);
    if a.moves != r.moves {
      SpacedSnoc(r.moves, a.moves[|r.moves|]);
    }
  }

  lemma ResizeKeepsStreaks(s: State, r: ResizeResult)
    requires Sane(s.ctl)
    ensures var c := ResizePhase(s, r).ctl; Sane(c) && c.up == s.ctl.up && c.down == s.ctl.down
  {
  }

  lemma MovesKept(r: Run, t: Turn)
    requires Sane(r.state.ctl) && MovesTold(r)
    ensures MovesTold(Advance(r, t))
  {
    var p, a := ResizePhase(r.state, t.resize), Advance(r, t);
    ResizeKeepsStreaks(r.state, t.resize);
    hide ResizePhase, Spaced, Tick, Moves;
    if |a.sent| > |r.sent| {
      MovesAfterFrame(r, p.ctl, t.sendMs, a);
    }
  }

  lemma InvKept(r: Run, t: Turn)
    requires Inv(r) && Timed(t)
    ensures Inv(Advance(r, t))
    ensures Advance(r, t).state.native == r.state.native && Advance(r, t).state.adaptive == r.state.adaptive
  {
    SizesKept(r.state, t);
    MovesKept(r, t);
    hide Step, SizesTold, MovesTold;
  }

  /** The invariant holds over every run, and over every continuation of a run it holds of. */
  lemma {:induction false} InvHolds(r: Run, ts: seq<Turn>)
    requires Inv(r) && Turns(ts)
    ensures var a := Continue(r, ts);
            Inv(a) && a.state.native == r.state.native && a.state.adaptive == r.state.adaptive
    decreases |ts|
  {
    hide Inv, Advance;
    if ts != [] {
      InvHolds(r, ts[..|ts| - 1]);
      InvKept(Continue(r, ts[..|ts| - 1]), ts[|ts| - 1]);
    }
  }

  lemma RunInv(native: Size, adaptive: bool, ts: seq<Turn>)
    requires Turns(ts)
    ensures var a := After(native, adaptive, ts);
            Inv(a) && a.state.native == native && a.state.adaptive == adaptive
  {
    hide Inv;
    StartInv(native, adaptive);
    InvHolds(Start(native, adaptive), ts);
  }
}
