/** From the host's encoders to the tablet's decoders, end to end: host payloads, framing, one byte
    stream for video, audio and all else, cut anywhere, the tablet's reader and parsers, and what
    they feed its decoders. */
module Pipeline {
  import opened Bytes
  import opened Nal
  import opened VideoPayload
  import opened Framing
  import Adts

  const MSG_HANDSHAKE_ACK := 2
  const MSG_VIDEO_FRAME := 3
  const MSG_AUDIO_FRAME := 7
  const AUDIO_HEADER_SIZE := 8

  /** One access unit as an encoder's byte stream, with what the host says about it. */
  datatype AccessUnit = AccessUnit(stream: seq<byte>, keyframe: bool, codec: nat, w: nat, h: nat)

  /** What the host sends: the answer to the handshake, access units, and raw audio frames in the
      batches in which the encoder yields them. */
  datatype HostMessage = Ack(ack: seq<byte>) | Video(u: AccessUnit) | Audio(raw: seq<seq<byte>>, rate: nat, channels: byte)

  function VideoBody(u: AccessUnit): seq<byte> {
    VideoHeader(u.keyframe, u.codec, u.w, u.h) + Container(Split(u.stream))
  }

  /** The packed sp_audio_frame struct and the encoder's bytes. */
  function AudioBody(rate: nat, codec: nat, channels: nat, data: seq<byte>): seq<byte> {
    U32(rate) + [codec % 256, channels % 256] + U16(0) + data
  }

  function MessageOf(m: HostMessage): Message {
    match m
    case Ack(ack) => Message(MSG_HANDSHAKE_ACK, ack)
    case Video(u) => Message(MSG_VIDEO_FRAME, VideoBody(u))
    case Audio(raw, rate, channels) => Message(MSG_AUDIO_FRAME, AudioBody(rate, 1, channels, Adts.Frames(raw, rate, channels)))
  }

  /** Sizes, codes and lengths fit their fields, and the message its 31-bit length. */
  ghost predicate Sendable(m: HostMessage) {
    && |MessageOf(m).payload| < TWO31
    && match m
       case Ack(_) => true
       case Video(u) => |u.stream| < TWO31 && u.codec < 128 && u.w < TWO31 && u.h < TWO31
       case Audio(raw, rate, channels) =>
         rate < TWO31 && channels < 8 && forall p :: p in raw ==> |p| + Adts.HEADER_SIZE < 8192
  }

  /** The messages of a connection as sent, numbered from 1, each at its time. */
  function AllSent(ms: seq<HostMessage>, at: nat -> int): (ss: seq<Sent>)
    ensures |ss| == |ms|
    ensures forall k :: 0 <= k < |ms| ==> ss[k] == Sent(MessageOf(ms[k]), k + 1, at(k))
  {
    seq(|ms|, k requires 0 <= k < |ms| => Sent(MessageOf(ms[k]), k + 1, at(k)))
  }

  datatype AudioFrame = AudioFrame(sampleRate: int, codec: int, channels: int, data: seq<byte>)

  function ParseAudioFrame(p: seq<byte>): Result<AudioFrame> {
    if |p| < AUDIO_HEADER_SIZE then Err(BufferUnderflow)
    else Ok(AudioFrame(Signed32(ReadU32(p, 0)), Signed8(p[4]), Signed8(p[5]), p[AUDIO_HEADER_SIZE..]))
  }

  /** What the tablet's receive loop makes of a message, by its type. */
  datatype Received = GotVideo(video: VideoFrame) | GotAudio(audio: AudioFrame) | ParseFailed | Ignored

  function Dispatch(m: Message): Received {
    if m.kind == MSG_VIDEO_FRAME then
      var r := Parse(m.payload);
      if r.Ok? then GotVideo(r.value) else ParseFailed
    else if m.kind == MSG_AUDIO_FRAME then
      var r := ParseAudioFrame(m.payload);
      if r.Ok? then GotAudio(r.value) else ParseFailed
    else Ignored
  }

  /** A message as the tablet should get it. Video: the flags and sizes the host gave it, and units
      that behind start codes split into those of the encoder's output, IDR slices included.
      Audio: rate, channels and data, which a standard ADTS reader cuts into the raw frames. */
  ghost predicate Arrives(m: HostMessage, got: Received) {
    match m
    case Ack(_) => got.Ignored?
    case Video(u) =>
      && got == GotVideo(VideoFrame(u.keyframe, u.codec, u.w, u.h, Split(u.stream)))
      && Split(AnnexB(got.video.nals)) == Split(u.stream)
      && AnyIdrSlice(Split(AnnexB(got.video.nals))) == AnyIdrSlice(Split(u.stream))
    case Audio(raw, rate, channels) =>
      && got == GotAudio(AudioFrame(rate, 1, channels, Adts.Frames(raw, rate, channels)))
      && Adts.Cut(got.audio.data) == Some(raw)
  }

  lemma UnitArrives(u: AccessUnit)
    requires Sendable(Video(u))
    ensures Arrives(Video(u), Dispatch(MessageOf(Video(u))))
  {
    hide Split, AnyIdrSlice, Parse, Container, VideoHeader;
    EncoderToDecoder(u.stream, u.keyframe, u.codec, u.w, u.h);
  }

  /** Encoded audio, within one message: the tablet reads back rate, codec and channel count, and a
      standard ADTS reader cuts the data into the encoder's raw frames. */
  lemma AudioArrives(rate: nat, channels: byte, raw: seq<seq<byte>>)
    requires rate < TWO31 && channels < 8
    requires forall p :: p in raw ==> |p| + Adts.HEADER_SIZE < 8192
    ensures var data := Adts.Frames(raw, rate, channels);
            && ParseAudioFrame(AudioBody(rate, 1, channels, data)) == Ok(AudioFrame(rate, 1, channels, data))
            && Adts.Cut(data) == Some(raw)
  {
    var data := Adts.Frames(raw, rate, channels);
    Adts.CutOfFrames(raw, rate, channels);
    hide Adts.Frames, Adts.Cut;
    AudioHeader(rate, channels, data);
  }

  lemma AudioHeader(rate: nat, channels: byte, data: seq<byte>)
    requires rate < TWO31 && channels < 8
    ensures ParseAudioFrame(AudioBody(rate, 1, channels, data)) == Ok(AudioFrame(rate, 1, channels, data))
  {
    hide U32, ReadU32;
    var p := AudioBody(rate, 1, channels, data);
    assert p[0..4] == U32(rate) && p[4] == 1 && p[5] == channels && p[AUDIO_HEADER_SIZE..] == data;
    ReadU32OfU32(p, 0, rate);
  }

  lemma MessageArrives(m: HostMessage)
    requires Sendable(m)
    ensures Arrives(m, Dispatch(MessageOf(m)))
  {
    hide VideoBody, AudioBody, Parse, ParseAudioFrame, Split, AnyIdrSlice;
    match m {
      case Ack(_) =>
      case Video(u) => UnitArrives(u);
      case Audio(raw, rate, channels) => AudioArrives(rate, channels, raw);
    }
  }

  /** For every list of messages the host sends on one connection, video, audio and others in any
      order, and every point at which the stream breaks off: the tablet gets exactly the messages
      that are complete by then, each as it should. */
  lemma StreamArrives(ms: seq<HostMessage>, at: nat -> int, k: nat)
    requires forall m :: m in ms ==> Sendable(m)
    requires k <= |Stream(AllSent(ms, at))|
    ensures var got := Deframe(Stream(AllSent(ms, at))[..k], Tablet);
            && |got| == CompleteCount(AllSent(ms, at), k)
            && forall i :: 0 <= i < |got| ==> Arrives(ms[i], Dispatch(got[i]))
  {
    hide MessageOf, Frame, Deframe, Arrives, Dispatch;
    var ss := AllSent(ms, at);
    forall s | s in ss ensures Framable(s.msg) {
      var i :| 0 <= i < |ss| && ss[i] == s;
      SendableIsFramable(ms[i]);
    }
    DeframeOfCutStream(ss, k, Tablet);
    var got := Deframe(Stream(ss)[..k], Tablet);
    forall i | 0 <= i < |got| ensures Arrives(ms[i], Dispatch(got[i])) {
      assert ms[i] in ms && got[i] == ss[i].msg;
      MessageArrives(ms[i]);
    }
  }

  lemma SendableIsFramable(m: HostMessage)
    requires Sendable(m)
    ensures Framable(MessageOf(m))
  {
    hide VideoBody, AudioBody;
  }

  // ---------------------------------------------------------------- the video among it

  /** The access units among the messages. */
  function Units(ms: seq<HostMessage>): seq<AccessUnit> {
    if ms == [] then []
    else
      var n := |ms| - 1;
      Units(ms[..n]) + (if ms[n].Video? then [ms[n].u] else [])
  }

  /** The video frames the tablet parses out of the messages it gets. */
  function Parsed(got: seq<Message>): seq<VideoFrame> {
    if got == [] then []
    else
      var n := |got| - 1;
      Parsed(got[..n]) + (if Dispatch(got[n]).GotVideo? then [Dispatch(got[n]).video] else [])
  }

  lemma {:induction false} ParsedAreUnits(ms: seq<HostMessage>, got: seq<Message>)
    requires |got| <= |ms| && forall i :: 0 <= i < |got| ==> Arrives(ms[i], Dispatch(got[i]))
    ensures var fs, us := Parsed(got), Units(ms[..|got|]);
            && |fs| == |us|
            && forall i :: 0 <= i < |fs| ==>
                 fs[i] == VideoFrame(us[i].keyframe, us[i].codec, us[i].w, us[i].h, Split(us[i].stream))
    decreases |got|
  {
    hide Dispatch, Split, AnyIdrSlice;
    if got != [] {
      var n := |got| - 1;
      ParsedAreUnits(ms, got[..n]);
      assert ms[..n + 1][..n] == ms[..n];
      assert Arrives(ms[n], Dispatch(got[n]));
    }
  }

  /** The protocol's message types and the layout of an audio message. */
  lemma MessageBytes(ack: seq<byte>, u: AccessUnit, raw: seq<seq<byte>>, rate: nat, channels: byte)
    ensures MessageOf(Ack(ack)) == Message(2, ack)
    ensures MessageOf(Video(u)) == Message(3, VideoHeader(u.keyframe, u.codec, u.w, u.h) + Container(Split(u.stream)))
    ensures MessageOf(Audio(raw, rate, channels))
         == Message(7, U32(rate) + [1, channels, 0, 0] + Adts.Frames(raw, rate, channels))
  {
    hide U32, VideoHeader, Container, Split, Adts.Frames;
    assert U16(0) == [0, 0];
  }

  /** And what the tablet does with each type. */
  lemma DispatchByType(m: Message)
    ensures Dispatch(m).GotVideo? ==> m.kind == 3
    ensures Dispatch(m).GotAudio? ==> m.kind == 7
    ensures m.kind != 3 && m.kind != 7 ==> Dispatch(m).Ignored?
    ensures m.kind == 3 ==> (Dispatch(m).GotVideo? <==> Parse(m.payload).Ok?)
    ensures m.kind == 7 ==> (Dispatch(m).GotAudio? <==> |m.payload| >= 8)
    ensures m.kind == 7 && |m.payload| >= 8 ==>
              var p := m.payload;
              Dispatch(m).audio == AudioFrame(Signed32(ReadU32(p, 0)), Signed8(p[4]), Signed8(p[5]), p[8..])
  {
    hide Parse;
  }
}
