/** The host's main loop and the tablet's receive loop together: what the tablet knows about the size
    of the pictures it decodes. */
module HostToTablet {
  import opened Bytes
  import opened HostLoop
  import opened HostLoopFrames
  import Framing
  import VideoPayload
  import Pipeline

  /** The frames sent before turn n. */
  function SentBefore(h: Session, n: nat): seq<VideoFrame>
    requires n <= |h.turns|
  {
    After(h.native, h.adaptive, h.turns[..n]).sent
  }

  lemma SentNext(h: Session, n: nat)
    requires n < |h.turns|
    ensures SentBefore(h, n + 1) == SentBefore(h, n) + (if SentAt(h, n).Some? then [SentAt(h, n).value] else [])
  {
    hide After, SentAt;
    FrameIsInRun(h, n);
  }

  lemma {:induction false} SentGrows(h: Session, m: nat, n: nat)
    requires m <= n <= |h.turns|
    ensures SentBefore(h, m) <= SentBefore(h, n)
    decreases n
  {
    hide SentBefore, SentAt;
    if m < n {
      SentGrows(h, m, n - 1);
      SentNext(h, n - 1);
    }
  }

  /** The turn that sent the k-th frame. */
  lemma {:induction false} TurnOf(h: Session, n: nat, k: nat) returns (j: nat)
    requires n <= |h.turns| && k < |SentBefore(h, n)|
    ensures j < n && SentAt(h, j) == Some(SentBefore(h, n)[k]) && |SentBefore(h, j)| == k
    decreases n
  {
    hide SentBefore, SentAt;
    j := 0;
    if n == 0 {
      NoneSentAtFirst(h);
    } else {
      SentNext(h, n - 1);
      if k < |SentBefore(h, n - 1)| {
        j := TurnOf(h, n - 1, k);
      } else {
        j := n - 1;
      }
    }
  }

  lemma NoneSentAtFirst(h: Session)
    ensures SentBefore(h, 0) == []
  {
    assert h.turns[..0] == [];
  }

  /** Between the turns of two frames in a row no frame leaves. */
  lemma QuietBetween(h: Session, i: nat, j: nat)
    requires i < j <= |h.turns| && SentAt(h, i).Some? && |SentBefore(h, j)| == |SentBefore(h, i)| + 1
    ensures Quiet(h, i + 1, j)
  {
    hide SentBefore, SentAt;
    SentNext(h, i);
    forall t | i + 1 <= t < j ensures SentAt(h, t).None? {
      SentNext(h, t);
      SentGrows(h, i + 1, t);
      SentGrows(h, t + 1, j);
    }
  }

  lemma QuietBefore(h: Session, j: nat)
    requires j <= |h.turns| && |SentBefore(h, j)| == 0
    ensures Quiet(h, 0, j)
  {
    hide SentBefore, SentAt;
    forall t | 0 <= t < j ensures SentAt(h, t).None? {
      SentNext(h, t);
      SentGrows(h, t + 1, j);
    }
  }

  /** What holds of the frames of a run in the order in which they were sent: each reports the size
      it was encoded at, and the first, and each that reports another size than the one before
      it, carries the keyframe flag. */
  ghost predicate SizesAnnounced(fs: seq<VideoFrame>) {
    forall k :: 0 <= k < |fs| ==> SizeAnnounced(fs, k)
  }

  ghost predicate SizeAnnounced(fs: seq<VideoFrame>, k: nat)
    requires k < |fs|
  {
    fs[k].display == fs[k].encoded && (k == 0 || fs[k].display != fs[k - 1].display ==> fs[k].keyframe)
  }

  lemma RunAnnounces(h: Session)
    requires Turns(h.turns) && NoneStaysReduced(h)
    ensures SizesAnnounced(SentBefore(h, |h.turns|))
  {
    hide SentBefore, SentAt, NoneStaysReduced, OnLadder, ResizedAt, RequestedAt;
    var n := |h.turns|;
    var fs := SentBefore(h, n);
    forall k | 0 <= k < |fs| ensures SizeAnnounced(fs, k) {
      var j := TurnOf(h, n, k);
      ReportedSizesAreEncodedSizes(h, j);
      if k == 0 {
        QuietBefore(h, j);
        KeyframeIff(h, j);
      } else {
        var i := TurnOf(h, n, k - 1);
        if j <= i { SentGrows(h, j, i); }
        QuietBetween(h, i, j);
        SizeChangesAtKeyframes(h, i, j);
      }
    }
  }

  /** These video messages are the run's first frames, in order, each with its flag and its size. */
  ghost predicate Carries(us: seq<Pipeline.AccessUnit>, fs: seq<VideoFrame>) {
    && |us| <= |fs|
    && forall k :: 0 <= k < |us| ==>
         us[k].keyframe == fs[k].keyframe && us[k].w == fs[k].display.w && us[k].h == fs[k].display.h
  }

  /** Frames as the tablet has parsed them: their flags and sizes are those of the frames sent. */
  ghost predicate Matches(got: seq<VideoPayload.VideoFrame>, us: seq<Pipeline.AccessUnit>) {
    && |got| <= |us|
    && forall k :: 0 <= k < |got| ==>
         got[k].keyframe == us[k].keyframe && got[k].displayW == us[k].w && got[k].displayH == us[k].h
  }

  /** The tablet's view: every size is that of the encoder, and every change is flagged. */
  ghost predicate SizesKnown(got: seq<VideoPayload.VideoFrame>, sent: seq<VideoFrame>) {
    && |got| <= |sent|
    && (forall k :: 0 <= k < |got| ==> got[k].displayW == sent[k].encoded.w && got[k].displayH == sent[k].encoded.h)
    && (got != [] ==> got[0].keyframe)
    && (forall k :: 0 < k < |got| && (got[k].displayW != got[k - 1].displayW || got[k].displayH != got[k - 1].displayH) ==>
          got[k].keyframe)
  }

  lemma AnnouncedIsKnown(got: seq<VideoPayload.VideoFrame>, us: seq<Pipeline.AccessUnit>, sent: seq<VideoFrame>)
    requires Matches(got, us) && Carries(us, sent) && SizesAnnounced(sent)
    ensures SizesKnown(got, sent)
  {
    forall k | 0 <= k < |got|
      ensures got[k].displayW == sent[k].encoded.w && got[k].displayH == sent[k].encoded.h
      ensures k == 0 || got[k].displayW != got[k - 1].displayW || got[k].displayH != got[k - 1].displayH ==> got[k].keyframe
    {
      assert SizeAnnounced(sent, k);
    }
    if got != [] { assert SizeAnnounced(sent, 0); }
  }

  lemma ParsedMatch(ms: seq<Pipeline.HostMessage>, all: seq<Framing.Message>)
    requires |all| <= |ms| && forall i :: 0 <= i < |all| ==> Pipeline.Arrives(ms[i], Pipeline.Dispatch(all[i]))
    ensures Matches(Pipeline.Parsed(all), Pipeline.Units(ms[..|all|]))
  {
    hide Pipeline.Arrives, Pipeline.Dispatch, Pipeline.Units, Pipeline.Parsed;
    Pipeline.ParsedAreUnits(ms, all);
  }

  /** For every run of the main loop with the encoders there are, every connection that carries its
      frames among audio and other messages, and every point at which the stream breaks off, inside
      a message whose send failed or anywhere else: of the frames the tablet parses, each has the size it was encoded at, and the first, and each whose
      size differs from that of the frame before it, is flagged as a keyframe. */
  lemma TabletKnowsSizes(h: Session, ms: seq<Pipeline.HostMessage>, at: nat -> int, cut: nat)
    requires Turns(h.turns) && NoneStaysReduced(h)
    requires forall m :: m in ms ==> Pipeline.Sendable(m)
    requires cut <= |Framing.Stream(Pipeline.AllSent(ms, at))|
    requires Carries(Pipeline.Units(ms[..Framing.CompleteCount(Pipeline.AllSent(ms, at), cut)]), SentBefore(h, |h.turns|))
    ensures var all := Framing.Deframe(Framing.Stream(Pipeline.AllSent(ms, at))[..cut], Framing.Tablet);
            SizesKnown(Pipeline.Parsed(all), SentBefore(h, |h.turns|))
  {
    hide *;
    var all := Framing.Deframe(Framing.Stream(Pipeline.AllSent(ms, at))[..cut], Framing.Tablet);
    Pipeline.StreamArrives(ms, at, cut);
    ParsedMatch(ms, all);
    RunAnnounces(h);
    AnnouncedIsKnown(Pipeline.Parsed(all), Pipeline.Units(ms[..|all|]), SentBefore(h, |h.turns|));
  }
}
