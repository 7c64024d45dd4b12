/** Audio framing on the host (host/src/audio/capture.cpp): samples gather in an accumulator,
    full frames move to a bounded queue, a consumer pops them. */
module CaptureQueue {
  import opened Bytes

  const PER_FRAME := 2048          // 1024 stereo samples
  const MAX_QUEUED := 20

  type AudioFrame = seq<int>

  datatype State = State(acc: seq<int>, frames: seq<AudioFrame>)

  /** What can happen, in any order: the capture thread appends a packet's samples or moves one
      full frame to the queue (under the queue's lock), another thread pops a frame. */
  datatype Op = Append(samples: seq<int>) | Emit | Pop

  predicate CanEmit(s: State) { |s.acc| >= PER_FRAME }

  /** Pushing into the full queue first drops the oldest frame. */
  function Push(q: seq<AudioFrame>, f: AudioFrame): seq<AudioFrame> {
    (if |q| >= MAX_QUEUED then q[1..] else q) + [f]
  }

  function Step(s: State, op: Op): State {
    match op
    case Append(samples) => s.(acc := s.acc + samples)
    case Emit => if CanEmit(s) then State(s.acc[PER_FRAME..], Push(s.frames, s.acc[..PER_FRAME])) else s
    case Pop => if s.frames == [] then s else s.(frames := s.frames[1..])
  }

  /** The drain loop: frames are emitted until less than one is left. */
  function Drained(s: State): (d: State)
    ensures |d.acc| < PER_FRAME
    decreases |s.acc|
  {
    if CanEmit(s) then Drained(Step(s, Emit)) else s
  }

  class AudioCapture {
    var acc: seq<int>
    var frames: seq<AudioFrame>

    ghost function View(): State
      reads this
    {
      State(acc, frames)
    }

    constructor ()
      ensures View() == State([], [])
    {
      acc, frames := [], [];
    }

    method AppendPacket(samples: seq<int>)
      modifies this
      ensures View() == Step(old(View()), Append(samples))
    {
      acc := acc + samples;
    }

    /** Moves every full frame to the queue. */
    method EmitFrames()
      modifies this
      ensures View() == Drained(old(View()))
    {
      while |acc| >= PER_FRAME
        invariant Drained(View()) == Drained(old(View()))
        decreases |acc|
      {
        var frame := acc[..PER_FRAME];
        acc := acc[PER_FRAME..];
        if |frames| >= MAX_QUEUED {
          frames := frames[1..];
        }
        frames := frames + [frame];
      }
    }

    method PopFrame() returns (out: Option<AudioFrame>)
      modifies this
      ensures View() == Step(old(View()), Pop)
      ensures out == if old(frames) == [] then None else Some(old(frames)[0])
    {
      if frames == [] {
        return None;
      }
      out := Some(frames[0]);
      frames := frames[1..];
    }
  }

  // --------------------------------------------------------------- every interleaving

  /** A run, with its record: all samples appended, all frames emitted, the frames popped, and
      how many of the emitted frames are at or before the last popped one. */
  datatype Run = Run(state: State, appended: seq<int>, emitted: seq<AudioFrame>, popped: seq<AudioFrame>, passed: nat)

  function Advance(r: Run, op: Op): Run {
    var s := r.state;
    var t := Step(s, op);
    match op
    case Append(samples) => r.(state := t, appended := r.appended + samples)
    case Emit => if CanEmit(s) then r.(state := t, emitted := r.emitted + [s.acc[..PER_FRAME]]) else r
    case Pop =>
      if s.frames == [] then r
      else Run(t, r.appended, r.emitted, r.popped + [s.frames[0]],
               if |r.emitted| < |s.frames| then 0 else |r.emitted| - |s.frames| + 1)
  }

  function After(ops: seq<Op>): Run
    decreases |ops|
  {
    if ops == [] then Run(State([], []), [], [], [], 0)
    else Advance(After(ops[..|ops| - 1]), ops[|ops| - 1])
  }

  function Flat(frames: seq<AudioFrame>): seq<int> {
    if frames == [] then [] else Flat(frames[..|frames| - 1]) + frames[|frames| - 1]
  }

  function Max(a: int, b: int): int { if a > b then a else b }

  /** `sub` is a selection from the first n elements of `all`, in order. */
  ghost predicate Selection(sub: seq<AudioFrame>, all: seq<AudioFrame>, n: nat)
    decreases |sub|
  {
    n <= |all| &&
    (sub == [] || exists i: nat :: i < n && all[i] == sub[|sub| - 1] && Selection(sub[..|sub| - 1], all, i))
  }

  ghost predicate Inv(r: Run) {
    && Flat(r.emitted) + r.state.acc == r.appended
    && (forall k :: 0 <= k < |r.emitted| ==> |r.emitted[k]| == PER_FRAME)
    && r.passed <= |r.emitted|
    && r.state.frames == r.emitted[Max(r.passed, |r.emitted| - MAX_QUEUED)..]
    && Selection(r.popped, r.emitted, r.passed)
  }

  lemma {:induction false} SelectionMono(sub: seq<AudioFrame>, all: seq<AudioFrame>, more: seq<AudioFrame>, m: nat, n: nat)
    requires Selection(sub, all, m) && m <= n <= |all + more|
    ensures Selection(sub, all + more, n)
    decreases |sub|
  {
    if sub != [] {
      var i: nat :| i < m && all[i] == sub[|sub| - 1] && Selection(sub[..|sub| - 1], all, i);
      SelectionMono(sub[..|sub| - 1], all, more, i, i);
      assert i < n && (all + more)[i] == sub[|sub| - 1] && Selection(sub[..|sub| - 1], all + more, i);
    }
  }

  lemma PushKeepsNewest(e: seq<AudioFrame>, p: nat, f: AudioFrame)
    requires p <= |e|
    ensures Push(e[Max(p, |e| - MAX_QUEUED)..], f) == (e + [f])[Max(p, |e| + 1 - MAX_QUEUED)..]
  {
    var start := Max(p, |e| - MAX_QUEUED);
    if |e| - start >= MAX_QUEUED {
      assert e[start..][1..] == e[start + 1..];
      assert e[start + 1..] + [f] == (e + [f])[start + 1..];
    } else {
      assert e[start..] + [f] == (e + [f])[start..];
    }
  }

  lemma FlatSnoc(es: seq<AudioFrame>, f: AudioFrame)
    ensures Flat(es + [f]) == Flat(es) + f
  {
    assert (es + [f])[..|es|] == es;
  }

  lemma EmitKeeps(r: Run)
    requires Inv(r) && CanEmit(r.state)
    ensures Inv(Advance(r, Emit))
  {
    hide Selection, Flat;
    var f := r.state.acc[..PER_FRAME];
    FlatSnoc(r.emitted, f);
    assert Flat(r.emitted) + f + r.state.acc[PER_FRAME..] == Flat(r.emitted) + r.state.acc;
    SelectionMono(r.popped, r.emitted, [f], r.passed, r.passed);
    PushKeepsNewest(r.emitted, r.passed, f);
  }

  lemma PopKeeps(r: Run)
    requires Inv(r) && r.state.frames != []
    ensures Inv(Advance(r, Pop))
  {
    hide Flat;
    var start := Max(r.passed, |r.emitted| - MAX_QUEUED);
    var a, f := Advance(r, Pop), r.state.frames[0];
    assert |r.emitted| - |r.state.frames| == start && f == r.emitted[start];
    SelectionSnoc(r.popped, r.emitted, r.passed, start);
    assert r.emitted[start..][1..] == r.emitted[start + 1..];
    hide Selection;
    assert a == Run(a.state, r.appended, r.emitted, r.popped + [f], start + 1);
  }

  lemma SelectionSnoc(sub: seq<AudioFrame>, all: seq<AudioFrame>, n: nat, i: nat)
    requires Selection(sub, all, n) && n <= i < |all|
    ensures Selection(sub + [all[i]], all, i + 1)
  {
    SelectionMono(sub, all, [], n, i);
    assert all + [] == all;
    assert (sub + [all[i]])[..|sub|] == sub;
  }

  lemma AppendKeeps(r: Run, samples: seq<int>)
    requires Inv(r)
    ensures Inv(Advance(r, Append(samples)))
  {
    hide Selection, Flat;
    assert Flat(r.emitted) + (r.state.acc + samples) == r.appended + samples;
  }

  lemma {:induction false} InvHolds(ops: seq<Op>)
    ensures Inv(After(ops))
    decreases |ops|
  {
    if ops != [] {
      var r, op := After(ops[..|ops| - 1]), ops[|ops| - 1];
      InvHolds(ops[..|ops| - 1]);
      hide Inv;
      match op {
        case Append(samples) => AppendKeeps(r, samples);
        case Emit => if CanEmit(r.state) { EmitKeeps(r); }
        case Pop => if r.state.frames != [] { PopKeeps(r); }
      }
    } else {
      assert Flat([]) + After(ops).state.acc == [];
    }
  }

  /** Under every interleaving: the emitted frames hold 2048 samples each and, followed by the
      accumulator, are exactly what was appended; the queue is exactly the newest at most 20 of
      the frames after the last popped one; and the popped frames are a selection of the emitted
      ones in order. */
  lemma FramingConserves(ops: seq<Op>)
    ensures var r := After(ops);
            && Flat(r.emitted) + r.state.acc == r.appended
            && (forall k :: 0 <= k < |r.emitted| ==> |r.emitted[k]| == 2048)
            && r.passed <= |r.emitted|
            && r.state.frames == r.emitted[if r.passed > |r.emitted| - 20 then r.passed else |r.emitted| - 20..]
            && |r.state.frames| <= 20
            && Selection(r.popped, r.emitted, r.passed)
  {
    InvHolds(ops);
  }

  // ------------------------------------------------------------------ a drain

  /** A drain leaves exactly the samples that do not fill a frame. */
  lemma {:induction false} DrainLeavesRemainder(s: State)
    ensures Drained(s).acc == s.acc[|s.acc| - |s.acc| % 2048..]
    decreases |s.acc|
  {
    if CanEmit(s) {
      var t := Step(s, Emit);
      DrainLeavesRemainder(t);
      assert |t.acc| % PER_FRAME == |s.acc| % PER_FRAME;
      assert t.acc[|t.acc| - |t.acc| % PER_FRAME..] == s.acc[|s.acc| - |s.acc| % PER_FRAME..];
    }
  }

  function Newest(q: seq<AudioFrame>, n: nat): seq<AudioFrame> {
    if |q| > n then q[|q| - n..] else q
  }

  /** A drain of `before` cuts the accumulator into these frames and what is left, and queues them
      all, the oldest giving way when there are more than 20. */
  ghost predicate QueuesAll(before: State, es: seq<AudioFrame>, after: State) {
    && |es| == |before.acc| / 2048
    && (forall k :: 0 <= k < |es| ==> |es[k]| == 2048)
    && Flat(es) + after.acc == before.acc
    && after.frames == Newest(before.frames + es, Max(20, |before.frames|))
  }

  lemma {:induction false} FlatCons(f: AudioFrame, es: seq<AudioFrame>)
    ensures Flat([f] + es) == f + Flat(es)
    decreases |es|
  {
    if es == [] {
      assert [f] + es == [f] && [f][..0] == [] && Flat([f]) == Flat([]) + f;
    } else {
      var n := |es| - 1;
      FlatCons(f, es[..n]);
      assert ([f] + es)[..n + 1] == [f] + es[..n];
    }
  }

  lemma OneFirst(before: State, es: seq<AudioFrame>, after: State)
    requires CanEmit(before) && QueuesAll(Step(before, Emit), es, after)
    ensures QueuesAll(before, [before.acc[..PER_FRAME]] + es, after)
  {
    hide Flat;
    var f, t := before.acc[..PER_FRAME], Step(before, Emit);
    FlatCons(f, es);
    assert before.acc == f + t.acc;
    assert f + (Flat(es) + after.acc) == f + Flat(es) + after.acc;
    var q, n := before.frames, Max(20, |before.frames|);
    assert Max(20, |t.frames|) == n;
    assert t.frames == Newest(q + [f], n);
    assert q + [f] + es == q + ([f] + es);
    assert Newest(Newest(q + [f], n) + es, n) == Newest(q + [f] + es, n);
  }

  /** A drain loses nothing: the accumulator becomes frames of 2048 samples and a remainder, in
      order, and the queue the newest 20 of what it held followed by those frames. */
  lemma {:induction false} DrainQueuesAll(s: State)
    ensures exists es :: QueuesAll(s, es, Drained(s))
    decreases |s.acc|
  {
    hide QueuesAll;
    if CanEmit(s) {
      DrainQueuesAll(Step(s, Emit));
      var es :| QueuesAll(Step(s, Emit), es, Drained(s));
      OneFirst(s, es, Drained(s));
    } else {
      NothingToQueue(s);
      assert QueuesAll(s, [], Drained(s));
    }
  }

  lemma NothingToQueue(s: State)
    requires !CanEmit(s)
    ensures QueuesAll(s, [], s)
  {
    assert Flat([]) + s.acc == s.acc && s.frames + [] == s.frames;
  }

  function Emits(n: nat): seq<Op> {
    if n == 0 then [] else [Emit] + Emits(n - 1)
  }

  lemma AfterSnoc(ops: seq<Op>, op: Op)
    ensures After(ops + [op]) == Advance(After(ops), op)
  {
    hide Advance;
    assert (ops + [op])[..|ops|] == ops;
  }

  /** So the drain loop, at any point of a run, is as many emits as the accumulator holds frames,
      and what holds of every interleaving holds with it. */
  lemma {:induction false} DrainIsEmits(ops: seq<Op>)
    ensures After(ops + Emits(|After(ops).state.acc| / 2048)).state == Drained(After(ops).state)
    decreases |After(ops).state.acc|
  {
    hide Drained, Step;
    var s := After(ops).state;
    var n := |s.acc| / 2048;
    DrainOne(After(ops));
    if n == 0 {
      assert ops + Emits(n) == ops;
    } else {
      AfterSnoc(ops, Emit);
      hide After, Advance;
      DrainIsEmits(ops + [Emit]);
      assert ops + [Emit] + Emits(n - 1) == ops + Emits(n);
    }
  }

  lemma DrainOne(r: Run)
    ensures |r.state.acc| < 2048 ==> Drained(r.state) == r.state
    ensures |r.state.acc| >= 2048 ==>
              var t := Advance(r, Emit).state;
              Drained(r.state) == Drained(t) && |t.acc| == |r.state.acc| - 2048 && |t.acc| / 2048 == |r.state.acc| / 2048 - 1
  {
  }
}
