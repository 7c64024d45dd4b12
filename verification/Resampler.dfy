/** The stereo resampler of the host's audio capture (host/src/audio/capture.cpp). Samples are
    interleaved left, right; the phase is exact (a real). */
module Resampler {
  import opened Reals

  function Clamp16(v: real): real {
    if v > 32767.0 then 32767.0 else if v < -32768.0 then -32768.0 else v
  }

  function Blend(a: int, b: int, f: real): real {
    a as real + (b - a) as real * f
  }

  function LerpS16(a: int, b: int, f: real): int {
    Truncate(Clamp16(Blend(a, b, f)))
  }

  predicate Sample16(v: int) {
    -32768 <= v < 32768
  }

  ghost predicate All16(s: seq<int>) {
    forall i :: 0 <= i < |s| ==> Sample16(s[i])
  }

  lemma BlendBetween(a: int, b: int, f: real)
    requires 0.0 <= f < 1.0
    ensures a <= b ==> a as real <= Blend(a, b, f) <= b as real
    ensures b <= a ==> b as real <= Blend(a, b, f) <= a as real
  {
    var d := (b - a) as real;
    if d >= 0.0 {
      assert 0.0 <= d * f <= d;
    } else {
      assert d <= d * f <= 0.0;
    }
  }

  /** Interpolation between two 16-bit samples stays between them, so the clamp never fires, and is
      the exact value but for the fraction the conversion drops. */
  lemma LerpBetween(a: int, b: int, f: real)
    requires Sample16(a) && Sample16(b) && 0.0 <= f < 1.0
    ensures Clamp16(Blend(a, b, f)) == Blend(a, b, f)
    ensures a <= b ==> a <= LerpS16(a, b, f) <= b
    ensures b <= a ==> b <= LerpS16(a, b, f) <= a
    ensures LerpS16(a, a, f) == a && LerpS16(a, b, 0.0) == a
    ensures -1.0 < LerpS16(a, b, f) as real - ((1.0 - f) * a as real + f * b as real) < 1.0
    ensures LerpS16(a, b, f) > 0 ==> LerpS16(a, b, f) as real <= (1.0 - f) * a as real + f * b as real
    ensures LerpS16(a, b, f) < 0 ==> LerpS16(a, b, f) as real >= (1.0 - f) * a as real + f * b as real
  {
    BlendBetween(a, b, f);
    var v := Blend(a, b, f);
    assert v == (1.0 - f) * a as real + f * b as real by {
      assert (b - a) as real * f == b as real * f - a as real * f;
    }
    assert Truncate(a as real) == a && Truncate(b as real) == b;
    if a <= b {
      TruncateMonotone(a as real, v);
      TruncateMonotone(v, b as real);
    } else {
      TruncateMonotone(b as real, v);
      TruncateMonotone(v, a as real);
    }
    assert Blend(a, a, f) == a as real && Blend(a, b, 0.0) == a as real;
  }

  // ------------------------------------------------------------- positions and counts

  /** Where output frame k lies, in input frames from the start of the stream. */
  function Pos(ratio: real, k: nat): real {
    k as real * ratio
  }

  lemma PosNext(ratio: real, k: nat)
    ensures Pos(ratio, k + 1) == Pos(ratio, k) + ratio
    ensures Pos(ratio, 0) == 0.0
  {
  }

  lemma PosOrdered(ratio: real, j: nat, k: nat)
    requires ratio > 0.0 && j <= k
    ensures Pos(ratio, j) <= Pos(ratio, k)
    ensures j < k ==> Pos(ratio, j) + ratio <= Pos(ratio, k)
  {
    assert (k - j) as real * ratio == Pos(ratio, k) - Pos(ratio, j);
    if j < k { assert (k - j) as real >= 1.0; }
  }

  function Ceiling(v: real): int {
    -((-v).Floor)
  }

  /** How many output frames lie before input frame n: ceil(n / ratio). */
  function Total(ratio: real, n: nat): int
    requires ratio > 0.0
  {
    Ceiling(n as real / ratio)
  }

  lemma ScaleSign(x: real, r: real)
    requires r > 0.0
    ensures x * r >= 0.0 <==> x >= 0.0
  {
    if x < 0.0 { assert -x * r > 0.0; }
  }

  /** A count is the total for n exactly when the next output position is at or past n and less
      than one step past it. */
  lemma TotalIff(ratio: real, n: nat, t: nat)
    requires ratio > 0.0
    ensures t == Total(ratio, n) <==> 0.0 <= t as real * ratio - n as real < ratio
    ensures Pos(ratio, t) == t as real * ratio
  {
    var q, u: int := n as real / ratio, t;
    assert q * ratio == n as real;
    var gap := u as real - q;
    assert gap * ratio == Pos(ratio, t) - n as real;
    assert (gap - 1.0) * ratio == gap * ratio - ratio;
    ScaleSign(gap, ratio);
    ScaleSign(gap - 1.0, ratio);
    assert 0.0 <= gap < 1.0 <==> u == Ceiling(q);
  }

  lemma TotalIsNat(ratio: real, n: nat)
    requires ratio > 0.0
    ensures Total(ratio, n) >= 0
  {
    assert n as real / ratio >= 0.0;
  }

  // --------------------------------------------------------------------- one packet

  /** The position lies in the packet, so both frames read for it do. */
  predicate Inside(packet: seq<int>, pos: real) {
    0.0 <= pos < (|packet| / 2) as real
  }

  /** Channel c of the output at position `pos` within a packet: between the frame at or before
      it and the next, the packet's last frame standing in for a next one beyond the packet. */
  function SampleAt(packet: seq<int>, pos: real, c: nat): int
    requires c < 2
  {
    if !Inside(packet, pos) then 0
    else
      var i0 := pos.Floor;
      var i1 := if i0 + 1 < |packet| / 2 then i0 + 1 else i0;
      LerpS16(packet[2 * i0 + c], packet[2 * i1 + c], pos - i0 as real)
  }

  /** Output frames `lo` up to `hi`, interleaved, of a packet that begins at input frame `start`. */
  function Outputs(packet: seq<int>, ratio: real, start: nat, lo: nat, hi: nat): (o: seq<int>)
    requires lo <= hi
    ensures |o| == 2 * (hi - lo)
    decreases hi
  {
    if lo == hi then []
    else
      var pos := Pos(ratio, hi - 1) - start as real;
      Outputs(packet, ratio, start, lo, hi - 1) + [SampleAt(packet, pos, 0), SampleAt(packet, pos, 1)]
  }

  /** Writes both channels of the output at `pos` of a packet. */
  method PutSample(input: seq<int>, frames: nat, pos: real, out: array<int>, at: nat)
    requires |input| == 2 * frames && Inside(input, pos) && at + 2 <= out.Length
    modifies out
    ensures out[..at + 2] == old(out[..at]) + [SampleAt(input, pos, 0), SampleAt(input, pos, 1)]
    ensures out[at + 2..] == old(out[at..])[2..]
  {
    hide LerpS16;
    var i0 := pos.Floor;
    var i1 := if i0 + 1 < frames then i0 + 1 else i0;
    var frac := pos - i0 as real;
    out[at] := LerpS16(input[i0 * 2], input[i1 * 2], frac);
    out[at + 1] := LerpS16(input[i0 * 2 + 1], input[i1 * 2 + 1], frac);
  }

  lemma OutputsNext(packet: seq<int>, ratio: real, start: nat, lo: nat, hi: nat)
    requires lo <= hi
    ensures var pos := Pos(ratio, hi) - start as real;
            Outputs(packet, ratio, start, lo, hi + 1)
            == Outputs(packet, ratio, start, lo, hi) + [SampleAt(packet, pos, 0), SampleAt(packet, pos, 1)]
    ensures Outputs(packet, ratio, start, lo, lo) == []
  {
  }

  class StereoResampler {
    const ratio: real
    var phase: real
    ghost var produced: nat      // output frames so far
    ghost var consumed: nat      // input frames so far

    ghost predicate Valid()
      reads this
    {
      && ratio > 0.0
      && phase == Pos(ratio, produced) - consumed as real
      && phase < ratio
    }

    constructor (ratio: real)
      requires ratio > 0.0
      ensures Valid() && phase == 0.0 && this.ratio == ratio && produced == 0 && consumed == 0
    {
      this.ratio, phase, produced, consumed := ratio, 0.0, 0, 0;
    }

    /** One packet of `frames` input frames. The output positions continue where the previous
        packet left them; reads stay inside the packet and writes inside the capacity. If and only
        if the capacity runs out before the packet does, the phase is left negative, and there is
        no next call: its conversion to an index would be undefined. */
    method Process(input: seq<int>, frames: nat, out: array<int>, outCap: nat) returns (written: nat)
      requires Valid() && phase >= 0.0 && |input| == 2 * frames && 2 * outCap <= out.Length
      modifies this, out
      ensures Valid() && written <= outCap
      ensures produced == old(produced) + written && consumed == old(consumed) + frames
      ensures phase >= 0.0 <==> Pos(ratio, old(produced) + outCap) >= consumed as real
      ensures phase < 0.0 ==> written == outCap
      ensures out[..2 * written] == Outputs(input, ratio, old(consumed), old(produced), produced)
      ensures out[2 * written..] == old(out[..])[2 * written..]
      ensures written > 0 ==> Inside(input, Pos(ratio, produced - 1) - old(consumed) as real)
    {
      hide Pos, SampleAt, Outputs;
      written := 0;
      ghost var p0, c0, was := produced, consumed, out[..];
      OutputsNext(input, ratio, c0, p0, p0);
      while phase < frames as real && written < outCap
        invariant written <= outCap && produced == p0 + written && consumed == c0
        invariant phase == Pos(ratio, produced) - c0 as real && phase >= 0.0
        invariant written == 0 ==> phase < ratio
        invariant written > 0 ==> Inside(input, Pos(ratio, produced - 1) - c0 as real)
        invariant written > 0 ==> phase == Pos(ratio, produced - 1) - c0 as real + ratio
        invariant out[..2 * written] == Outputs(input, ratio, c0, p0, produced)
        invariant out[2 * written..] == was[2 * written..]
        decreases outCap - written
      {
        PutSample(input, frames, phase, out, 2 * written);
        OutputsNext(input, ratio, c0, p0, produced);
        assert was[2 * written..][2..] == was[2 * written + 2..];
        PosNext(ratio, produced);
        written := written + 1;
        phase := phase + ratio;
        produced := produced + 1;
      }
      PosOrdered(ratio, produced, p0 + outCap);
      phase := phase - frames as real;
      consumed := consumed + frames;
    }
  }

  // ----------------------------------------------------------- streams of packets

  function FramesIn(packets: seq<seq<int>>): nat {
    if packets == [] then 0 else FramesIn(packets[..|packets| - 1]) + |packets[|packets| - 1]| / 2
  }

  /** Everything a resampler puts out for a stream cut into these packets. */
  function RunOut(ratio: real, packets: seq<seq<int>>): (o: seq<int>)
    requires ratio > 0.0
    ensures |o| == 2 * Total(ratio, FramesIn(packets))
    decreases |packets|
  {
    TotalIff(ratio, 0, 0);
    PosNext(ratio, 0);
    if packets == [] then []
    else
      var n := |packets| - 1;
      var start, end := FramesIn(packets[..n]), FramesIn(packets);
      TotalMonotone(ratio, start, end);
      RunOut(ratio, packets[..n]) + Outputs(packets[n], ratio, start, Total(ratio, start), Total(ratio, end))
  }

  lemma TotalMonotone(ratio: real, m: nat, n: nat)
    requires ratio > 0.0 && m <= n
    ensures 0 <= Total(ratio, m) <= Total(ratio, n)
  {
    TotalIsNat(ratio, m);
    TotalIsNat(ratio, n);
    var a, b := Total(ratio, m), Total(ratio, n);
    TotalIff(ratio, m, a);
    TotalIff(ratio, n, b);
    if b < a {
      PosOrdered(ratio, b, a);
    }
  }

  /** A caller for Process: a stream fed to one resampler packet by packet, each with room for
      exactly what it yields. */
  method ResampleAll(ratio: real, packets: seq<seq<int>>) returns (out: seq<int>, phase: real)
    requires ratio > 0.0
    requires forall p :: p in packets ==> |p| % 2 == 0
    ensures out == RunOut(ratio, packets)
    ensures phase == Pos(ratio, Total(ratio, FramesIn(packets))) - FramesIn(packets) as real
    ensures 0.0 <= phase < ratio
  {
    hide Pos, Total, Outputs;
    var rs := new StereoResampler(ratio);
    out := [];
    var inFrames: nat, outFrames: nat := 0, 0;
    TotalIff(ratio, 0, 0);
    PosNext(ratio, 0);
    for k := 0 to |packets|
      invariant rs.Valid() && rs.phase >= 0.0 && rs.ratio == ratio && fresh(rs)
      invariant rs.consumed == inFrames && rs.produced == outFrames
      invariant rs.consumed == FramesIn(packets[..k]) && rs.produced == Total(ratio, FramesIn(packets[..k]))
      invariant out == RunOut(ratio, packets[..k])
    {
      var packet := packets[k];
      assert packet in packets && packets[..k + 1][..k] == packets[..k];
      var frames := |packet| / 2;
      ghost var start, end := FramesIn(packets[..k]), FramesIn(packets[..k + 1]);
      TotalMonotone(ratio, start, end);
      TotalIff(ratio, end, Total(ratio, end));
      var room := Total(ratio, inFrames + frames) - outFrames;
      var buf := new int[2 * room];
      var n := rs.Process(packet, frames, buf, room);
      TotalIff(ratio, end, rs.produced);
      out := out + buf[..2 * n];
      inFrames, outFrames := inFrames + frames, outFrames + n;
    }
    assert packets[..|packets|] == packets;
    phase := rs.phase;
  }

  // -------------------------------------------------- independence of packet boundaries

  /** The stream the packets were cut from. */
  function Joined(packets: seq<seq<int>>): seq<int> {
    if packets == [] then [] else Joined(packets[..|packets| - 1]) + packets[|packets| - 1]
  }

  /** A stream of stereo frames of 16-bit samples, cut between frames. */
  ghost predicate StereoStream(packets: seq<seq<int>>) {
    forall p :: p in packets ==> |p| % 2 == 0 && All16(p)
  }

  /** A packet ends before input frame n. */
  predicate PacketEnds(packets: seq<seq<int>>, n: int) {
    packets != [] && (n == FramesIn(packets) || PacketEnds(packets[..|packets| - 1], n))
  }

  lemma {:induction false} PacketEndsWithin(packets: seq<seq<int>>, n: int)
    ensures PacketEnds(packets, n) ==> n <= FramesIn(packets)
    ensures n == FramesIn(packets) > 0 ==> PacketEnds(packets, n)
    decreases |packets|
  {
    if packets != [] {
      PacketEndsWithin(packets[..|packets| - 1], n);
    }
  }

  lemma {:induction false} JoinedLength(packets: seq<seq<int>>)
    requires StereoStream(packets)
    ensures |Joined(packets)| == 2 * FramesIn(packets)
    ensures All16(Joined(packets))
    decreases |packets|
  {
    if packets != [] {
      var n := |packets| - 1;
      assert packets[n] in packets;
      JoinedLength(packets[..n]);
    }
  }

  lemma {:induction false} OutputsAt(packet: seq<int>, ratio: real, start: nat, lo: nat, hi: nat, j: nat, c: nat)
    requires lo <= j < hi && c < 2
    ensures Outputs(packet, ratio, start, lo, hi)[2 * (j - lo) + c] == SampleAt(packet, Pos(ratio, j) - start as real, c)
    decreases hi
  {
    hide SampleAt, Pos;
    OutputsNext(packet, ratio, start, lo, hi - 1);
    if j < hi - 1 {
      OutputsAt(packet, ratio, start, lo, hi - 1, j, c);
    }
  }

  /** The output that falls at position `pos` of a stream x: the stream interpolated there, or
      the frame at or before it when its packet ends right after that frame. */
  function StreamSample(x: seq<int>, pos: real, held: bool, c: nat): int
    requires c < 2 && 0.0 <= pos && 2 * pos.Floor + 1 < |x|
    requires !held ==> 2 * pos.Floor + 3 < |x|
  {
    var g := pos.Floor;
    if held then x[2 * g + c] else LerpS16(x[2 * g + c], x[2 * g + 2 + c], pos - g as real)
  }

  /** `v` is the sample of x at `pos`, which lies inside x. */
  ghost predicate SampleTold(v: int, x: seq<int>, pos: real, held: bool, c: nat) {
    && c < 2 && 0.0 <= pos && 2 * pos.Floor + 1 < |x|
    && (!held ==> 2 * pos.Floor + 3 < |x|)
    && v == StreamSample(x, pos, held, c)
  }

  /** Output j of a packet lies inside it. */
  lemma PositionInPacket(ratio: real, start: nat, end: nat, j: nat)
    requires ratio > 0.0 && start <= end && Total(ratio, start) <= j < Total(ratio, end)
    ensures start as real <= Pos(ratio, j) < end as real
  {
    var a, b := Total(ratio, start), Total(ratio, end);
    TotalIsNat(ratio, start);
    TotalIff(ratio, start, a);
    TotalIff(ratio, end, b);
    PosOrdered(ratio, a, j);
    PosOrdered(ratio, j, b);
  }

  lemma LastPacketSample(x: seq<int>, packet: seq<int>, start: nat, end: nat, pos: real, c: nat)
    requires |x| == 2 * start && |x + packet| == 2 * end && c < 2
    requires All16(x + packet)
    requires start as real <= pos < end as real
    ensures SampleTold(SampleAt(packet, pos - start as real, c), x + packet, pos, pos.Floor + 1 == end, c)
  {
    hide LerpS16;
    var i0 := (pos - start as real).Floor;
    assert pos.Floor == i0 + start;
    assert packet[2 * i0 + c] == (x + packet)[2 * pos.Floor + c];
    if pos.Floor + 1 == end {
      assert Sample16((x + packet)[2 * pos.Floor + c]);
      LerpBetween(packet[2 * i0 + c], packet[2 * i0 + c], pos - start as real - i0 as real);
    } else {
      assert packet[2 * i0 + 2 + c] == (x + packet)[2 * pos.Floor + 2 + c];
    }
  }

  /** Output j of the run is the stream at position j * ratio, with the frame before it held
      where a packet ends just after it. */
  ghost predicate OutputTold(ratio: real, packets: seq<seq<int>>, j: nat, c: nat)
    requires ratio > 0.0 && c < 2 && j < Total(ratio, FramesIn(packets))
  {
    var pos := Pos(ratio, j);
    SampleTold(RunOut(ratio, packets)[2 * j + c], Joined(packets), pos, PacketEnds(packets, pos.Floor + 1), c)
  }

  lemma SampleOfPrefix(v: int, x: seq<int>, y: seq<int>, pos: real, held: bool, c: nat)
    requires SampleTold(v, x, pos, held, c)
    ensures SampleTold(v, x + y, pos, held, c) && 0 <= 2 * pos.Floor + 1 < |x|
  {
    hide LerpS16;
  }

  lemma PacketsSnoc(packets: seq<seq<int>>, m: int)
    requires packets != []
    ensures var n := |packets| - 1; var init := packets[..n];
            && Joined(packets) == Joined(init) + packets[n]
            && FramesIn(packets) == FramesIn(init) + |packets[n]| / 2
            && PacketEnds(packets, m) == (m == FramesIn(packets) || PacketEnds(init, m))
            && packets[n] in packets
            && (StereoStream(packets) ==> StereoStream(init))
  {
  }

  lemma OutputInEarlierPacket(ratio: real, packets: seq<seq<int>>, j: nat, c: nat)
    requires ratio > 0.0 && StereoStream(packets) && c < 2 && packets != []
    requires var init := packets[..|packets| - 1];
             j < Total(ratio, FramesIn(init)) && OutputTold(ratio, init, j, c)
    ensures j < Total(ratio, FramesIn(packets)) && OutputTold(ratio, packets, j, c)
  {
    hide Pos, SampleTold, Outputs, Total, PacketEnds, Joined, FramesIn, All16;
    var n, pos := |packets| - 1, Pos(ratio, j);
    var init := packets[..n];
    PacketsSnoc(packets, pos.Floor + 1);
    TotalMonotone(ratio, FramesIn(init), FramesIn(packets));
    JoinedLength(init);
    PacketEndsWithin(init, pos.Floor + 1);
    assert RunOut(ratio, packets)[2 * j + c] == RunOut(ratio, init)[2 * j + c];
    SampleOfPrefix(RunOut(ratio, init)[2 * j + c], Joined(init), packets[n], pos, PacketEnds(init, pos.Floor + 1), c);
  }

  lemma RunOutOfLast(ratio: real, packets: seq<seq<int>>, j: nat, c: nat)
    requires ratio > 0.0 && c < 2 && packets != []
    requires Total(ratio, FramesIn(packets[..|packets| - 1])) <= j < Total(ratio, FramesIn(packets))
    ensures var start := FramesIn(packets[..|packets| - 1]);
            RunOut(ratio, packets)[2 * j + c] == SampleAt(packets[|packets| - 1], Pos(ratio, j) - start as real, c)
  {
    hide Pos, Total, SampleAt;
    var n := |packets| - 1;
    var start, end := FramesIn(packets[..n]), FramesIn(packets);
    TotalIsNat(ratio, start);
    OutputsAt(packets[n], ratio, start, Total(ratio, start), Total(ratio, end), j, c);
    hide Outputs;
    var a, b := RunOut(ratio, packets[..n]), Outputs(packets[n], ratio, start, Total(ratio, start), Total(ratio, end));
    assert RunOut(ratio, packets) == a + b;
    assert (a + b)[2 * j + c] == b[2 * (j - Total(ratio, start)) + c];
  }

  lemma OutputInLastPacket(ratio: real, packets: seq<seq<int>>, j: nat, c: nat)
    requires ratio > 0.0 && StereoStream(packets) && c < 2 && packets != []
    requires Total(ratio, FramesIn(packets[..|packets| - 1])) <= j < Total(ratio, FramesIn(packets))
    ensures OutputTold(ratio, packets, j, c)
  {
    hide Pos, SampleTold, RunOut, Total, SampleAt, Joined, FramesIn, PacketEnds, All16, StereoStream;
    var n, pos := |packets| - 1, Pos(ratio, j);
    var init, packet := packets[..n], packets[n];
    var start, end := FramesIn(init), FramesIn(packets);
    PacketsSnoc(packets, pos.Floor + 1);
    JoinedLength(packets);
    JoinedLength(init);
    PacketEndsWithin(init, pos.Floor + 1);
    PositionInPacket(ratio, start, end, j);
    RunOutOfLast(ratio, packets, j, c);
    LastPacketSample(Joined(init), packet, start, end, pos, c);
    assert PacketEnds(packets, pos.Floor + 1) <==> pos.Floor + 1 == end;
  }

  /** What every output sample of a run is, in terms of the stream alone. */
  lemma {:induction false} OutputIsStreamSample(ratio: real, packets: seq<seq<int>>, j: nat, c: nat)
    requires ratio > 0.0 && StereoStream(packets) && c < 2
    requires j < Total(ratio, FramesIn(packets))
    ensures OutputTold(ratio, packets, j, c)
    decreases |packets|
  {
    hide OutputTold, Total;
    TotalOfNothing(ratio);
    if j < Total(ratio, FramesIn(packets[..|packets| - 1])) {
      OutputIsStreamSample(ratio, packets[..|packets| - 1], j, c);
      OutputInEarlierPacket(ratio, packets, j, c);
    } else {
      OutputInLastPacket(ratio, packets, j, c);
    }
  }

  lemma TotalOfNothing(ratio: real)
    requires ratio > 0.0
    ensures Total(ratio, 0) == 0
  {
    TotalIff(ratio, 0, 0);
  }

  /** Two ways of cutting one stream into packets: the same number of output frames, ceil(N/ratio),
      and the same samples wherever the two agree on whether a packet ends there. */
  lemma PacketCutsDoNotMatter(ratio: real, ps: seq<seq<int>>, qs: seq<seq<int>>, j: nat, c: nat)
    requires ratio > 0.0 && StereoStream(ps) && StereoStream(qs) && c < 2
    requires Joined(ps) == Joined(qs)
    ensures |RunOut(ratio, ps)| == |RunOut(ratio, qs)| == 2 * Total(ratio, |Joined(ps)| / 2)
    ensures 2 * j + c < |RunOut(ratio, ps)| ==>
              var g := Pos(ratio, j).Floor;
              PacketEnds(ps, g + 1) == PacketEnds(qs, g + 1) ==>
                RunOut(ratio, ps)[2 * j + c] == RunOut(ratio, qs)[2 * j + c]
  {
    hide Total, Pos, StreamSample, RunOut, PacketEnds;
    JoinedLength(ps);
    JoinedLength(qs);
    if 2 * j + c < |RunOut(ratio, ps)| {
      OutputIsStreamSample(ratio, ps, j, c);
      OutputIsStreamSample(ratio, qs, j, c);
    }
  }

  /** A packet ends before input frame n when n is the number of frames in the first few packets. */
  lemma {:induction false} PacketEndsIff(packets: seq<seq<int>>, n: int)
    ensures PacketEnds(packets, n) <==> exists k :: 0 < k <= |packets| && n == FramesIn(packets[..k])
    decreases |packets|
  {
    if packets != [] {
      var m := |packets| - 1;
      PacketEndsIff(packets[..m], n);
      assert packets[..m + 1] == packets;
      if k :| 0 < k <= m && n == FramesIn(packets[..m][..k]) { assert packets[..m][..k] == packets[..k]; }
      if k :| 0 < k <= m && n == FramesIn(packets[..k]) { assert packets[..m][..k] == packets[..k]; }
    }
  }

  /** At position `pos` of the stream x, between two frames, v is the value on the straight line between
      their samples, to within one; held, it is the sample of the frame at or before pos. */
  ghost predicate Interpolates(v: int, x: seq<int>, pos: real, held: bool, c: nat) {
    var g := pos.Floor;
    var f := pos - g as real;
    && 0 <= g && 2 * g + c < |x|
    && (held ==> v == x[2 * g + c])
    && (!held ==>
          && 2 * g + 2 + c < |x|
          && -1.0 < v as real - ((1.0 - f) * x[2 * g + c] as real + f * x[2 * g + 2 + c] as real) < 1.0)
  }

  /** Every output sample, in numbers: output j is interpolated at position j * ratio, or held at the
      last frame before a packet's end. */
  lemma OutputInterpolates(ratio: real, packets: seq<seq<int>>, j: nat, c: nat)
    requires ratio > 0.0 && StereoStream(packets) && c < 2 && j < Total(ratio, FramesIn(packets))
    ensures var pos := j as real * ratio;
            Interpolates(RunOut(ratio, packets)[2 * j + c], Joined(packets), pos, PacketEnds(packets, pos.Floor + 1), c)
  {
    hide Interpolates, SampleTold, Total, RunOut, Joined, PacketEnds, FramesIn;
    OutputIsStreamSample(ratio, packets, j, c);
    JoinedLength(packets);
    var pos := Pos(ratio, j);
    SampleInterpolates(RunOut(ratio, packets)[2 * j + c], Joined(packets), pos, PacketEnds(packets, pos.Floor + 1), c);
  }

  lemma SampleInterpolates(v: int, x: seq<int>, pos: real, held: bool, c: nat)
    requires SampleTold(v, x, pos, held, c) && All16(x)
    ensures Interpolates(v, x, pos, held, c)
  {
    hide LerpS16;
    var g := pos.Floor;
    if !held {
      assert Sample16(x[2 * g + c]) && Sample16(x[2 * g + 2 + c]);
      LerpBetween(x[2 * g + c], x[2 * g + 2 + c], pos - g as real);
    }
  }
}
