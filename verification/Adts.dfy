/** The ADTS headers of the host's AAC path (host/src/audio/aac.cpp), and a reader for them after
    section 1.A.2.2 of ISO/IEC 14496-3. */
module Adts {
  import opened Bytes

  const HEADER_SIZE := 7

  function SamplingFrequencyIndex(rate: int): (i: nat)
    ensures i <= 8
  {
    match rate
    case 96000 => 0
    case 88200 => 1
    case 64000 => 2
    case 48000 => 3
    case 44100 => 4
    case 32000 => 5
    case 24000 => 6
    case 22050 => 7
    case 16000 => 8
    case _ => 3
  }

  /** The standard's table from sampling frequency index to rate, as far as the host goes. */
  function RateOfIndex(i: nat): Option<int> {
    if i <= 8 then Some([96000, 88200, 64000, 48000, 44100, 32000, 24000, 22050, 16000][i]) else None
  }

  /** The index names the rate exactly for the nine rates in the table; any other rate is
      announced as 48000. */
  lemma IndexNamesRateIff(rate: int)
    ensures RateOfIndex(SamplingFrequencyIndex(rate)) == Some(rate)
       <==> rate in {96000, 88200, 64000, 48000, 44100, 32000, 24000, 22050, 16000}
    ensures RateOfIndex(SamplingFrequencyIndex(rate)) in {Some(rate), Some(48000)}
    ensures RateOfIndex(0) == Some(96000) && RateOfIndex(3) == Some(48000) && RateOfIndex(4) == Some(44100) && RateOfIndex(8) == Some(16000)
  {
  }

  /** Bitwise or. */
  function Or(a: nat, b: nat): nat
    decreases a + b
  {
    if a == 0 && b == 0 then 0 else (if a % 2 == 1 || b % 2 == 1 then 1 else 0) + 2 * Or(a / 2, b / 2)
  }

  function Pow2(k: nat): (p: nat)
    ensures p > 0
  {
    if k == 0 then 1 else 2 * Pow2(k - 1)
  }

  lemma {:induction false} OrZero(a: nat)
    ensures Or(a, 0) == a
  {
    if a > 0 { OrZero(a / 2); }
  }

  /** Or-ing a field in below the set bits is adding it. */
  lemma {:induction false} OrBelow(a: nat, b: nat, k: nat)
    requires b < Pow2(k)
    ensures Or(a * Pow2(k), b) == a * Pow2(k) + b
  {
    if k == 0 {
      OrZero(a);
    } else {
      var m := a * Pow2(k - 1);
      assert a * Pow2(k) == 2 * m;
      OrBelow(a, b / 2, k - 1);
      if 2 * m == 0 && b == 0 {
      } else {
        assert 2 * m / 2 == m;
        assert Or(2 * m, b) == b % 2 + 2 * Or(m, b / 2);
      }
    }
  }

  lemma Powers()
    ensures Pow2(2) == 4 && Pow2(5) == 32 && Pow2(6) == 64
  {
    assert Pow2(1) == 2;
    assert Pow2(3) == 8;
    assert Pow2(4) == 16;
  }

  /** The seven header bytes: AAC-LC, no CRC, one raw block, variable rate. Each shift and mask is
      its arithmetic, each byte is cut to eight bits. */
  function Header(frameLen: nat, rate: int, channels: byte): (h: seq<byte>)
    ensures |h| == HEADER_SIZE
  {
    var sf := SamplingFrequencyIndex(rate);
    [0xFF, 0xF1,
     Or(Or(1 * 64, sf * 4), channels / 4) % 256,
     Or(channels % 4 * 64, frameLen / 2048 % 4) % 256,
     frameLen / 8 % 256,
     Or(frameLen % 8 * 32, 0x1F) % 256,
     0xFC]
  }

  method WriteAdts(hdr: array<byte>, frameLen: nat, rate: int, channels: byte)
    requires hdr.Length >= HEADER_SIZE
    modifies hdr
    ensures hdr[..] == Header(frameLen, rate, channels) + old(hdr[HEADER_SIZE..])
  {
    var sf := SamplingFrequencyIndex(rate);
    hdr[0] := 0xFF;
    hdr[1] := 0xF1;
    hdr[2] := Or(Or(1 * 64, sf * 4), channels / 4) % 256;
    hdr[3] := Or(channels % 4 * 64, frameLen / 2048 % 4) % 256;
    hdr[4] := frameLen / 8 % 256;
    hdr[5] := Or(frameLen % 8 * 32, 0x1F) % 256;
    hdr[6] := 0xFC;
  }

  // --------------------------------------------------------------------- the reader

  /** The fields of a fixed and variable header, section 1.A.2.2. */
  datatype Fields = Fields(
    syncword: nat, id: nat, layer: nat, protectionAbsent: nat, profile: nat, index: nat, channels: nat,
    frameLength: nat, fullness: nat, rawBlocks: nat)

  function FieldsOf(b0: nat, b1: nat, b2: nat, b3: nat, b4: nat, b5: nat, b6: nat): Fields {
    Fields(b0 * 16 + b1 / 16, b1 / 8 % 2, b1 / 2 % 4, b1 % 2,
           b2 / 64, b2 / 4 % 16, b2 % 2 * 4 + b3 / 64,
           b3 % 4 * 2048 + b4 * 8 + b5 / 32, b5 % 32 * 64 + b6 / 4, b6 % 4)
  }

  function ReadFields(b: seq<byte>): Fields
    requires |b| >= HEADER_SIZE
  {
    FieldsOf(b[0], b[1], b[2], b[3], b[4], b[5], b[6])
  }

  lemma OrLowBit(a: nat, b: nat)
    ensures Or(a, b) % 2 == 1 <==> a % 2 == 1 || b % 2 == 1
  {
  }

  lemma OrDouble(a: nat, b: nat)
    ensures Or(2 * a, b) == b % 2 + 2 * Or(a, b / 2)
  {
    if a > 0 || b > 0 {
      assert 2 * a / 2 == a && 2 * a % 2 == 0;
    }
  }

  lemma Byte2Upper(sf: nat, c: nat)
    requires c < 4
    ensures Or(64 + sf * 4, c) == 64 + sf * 4 + c
  {
    OrDouble(32 + sf * 2, c);
    OrDouble(16 + sf, c / 2);
    OrZero(16 + sf);
    hide Or;
  }

  lemma ByteParts(v: nat, sf: nat, c: nat)
    ensures v % 256 % 2 == v % 2
    ensures sf <= 8 && c < 4 && v == 64 + sf * 4 + c ==> v % 256 / 64 == 1 && v % 256 / 4 % 16 == sf
  {
    assert v == 256 * (v / 256) + v % 256;
  }

  /** Byte 2 carries the profile, the index and the top channel bit (whatever the count), and its
      upper fields are right for channel counts the two low bits can hold. */
  lemma Byte2(sf: nat, channels: byte)
    requires sf <= 8
    ensures var b := Or(Or(1 * 64, sf * 4), channels / 4) % 256;
            && b % 2 == channels / 4 % 2
            && (channels < 16 ==> b / 64 == 1 && b / 4 % 16 == sf)
  {
    Powers();
    OrBelow(1, sf * 4, 6);
    hide Or, Pow2;
    var c := channels / 4;
    var v := Or(64 + sf * 4, c);
    assert Or(Or(1 * 64, sf * 4), c) == v;
    OrLowBit(64 + sf * 4, c);
    assert (64 + sf * 4) % 2 == 0;
    ByteParts(v, sf, c);
    if channels < 16 { Byte2Upper(sf, c); }
  }

  lemma Byte3(channels: byte, frameLen: nat)
    ensures Or(channels % 4 * 64, frameLen / 2048 % 4) % 256 == channels % 4 * 64 + frameLen / 2048 % 4
  {
    Powers();
    hide Or, Pow2;
    OrBelow(channels % 4, frameLen / 2048 % 4, 6);
  }

  lemma Byte5(frameLen: nat)
    ensures Or(frameLen % 8 * 32, 0x1F) % 256 == frameLen % 8 * 32 + 0x1F
  {
    Powers();
    hide Or, Pow2;
    OrBelow(frameLen % 8, 0x1F, 5);
  }

  lemma LengthParts(n: nat)
    ensures n / 2048 % 4 * 2048 + n / 8 % 256 * 8 + n % 8 == n % 8192
  {
    var a := n / 8;
    assert n == 8 * a + n % 8;
    assert a == 256 * (a / 256) + a % 256;
    assert a / 256 == n / 2048;
    var q := n / 2048;
    assert q == 4 * (q / 4) + q % 4;
  }

  /** What a reader makes of a header as written, for every length, rate and channel count: the
      fixed fields are right, the length comes back modulo 2^13 and the channels modulo 8; profile
      and rate index are right for fewer than 16 channels. */
  lemma FieldsOfHeader(frameLen: nat, rate: int, channels: byte, rest: seq<byte>)
    ensures var f := ReadFields(Header(frameLen, rate, channels) + rest);
            && f.syncword == 0xFFF && f.id == 0 && f.layer == 0 && f.protectionAbsent == 1
            && f.fullness == 0x7FF && f.rawBlocks == 0
            && f.frameLength == frameLen % 8192
            && f.channels == channels % 8
            && (channels < 16 ==> f.profile == 1 && f.index == SamplingFrequencyIndex(rate))
  {
    hide SamplingFrequencyIndex, Or;
    var sf := SamplingFrequencyIndex(rate);
    var b2, b3 := Or(Or(1 * 64, sf * 4), channels / 4) % 256, Or(channels % 4 * 64, frameLen / 2048 % 4) % 256;
    var b5 := Or(frameLen % 8 * 32, 0x1F) % 256;
    Byte2(sf, channels);
    Byte3(channels, frameLen);
    Byte5(frameLen);
    var h := Header(frameLen, rate, channels) + rest;
    assert h[..HEADER_SIZE] == [0xFF, 0xF1, b2, b3, frameLen / 8 % 256, b5, 0xFC];
    assert ReadFields(h) == FieldsOf(0xFF, 0xF1, b2, b3, frameLen / 8 % 256, b5, 0xFC);
    FieldValues(b2, b3, b5, frameLen, channels);
  }

  lemma FieldValues(b2: nat, b3: nat, b5: nat, n: nat, channels: byte)
    requires b2 % 2 == channels / 4 % 2 && b3 == channels % 4 * 64 + n / 2048 % 4 && b5 == n % 8 * 32 + 0x1F
    ensures var f := FieldsOf(0xFF, 0xF1, b2, b3, n / 8 % 256, b5, 0xFC);
            && f.syncword == 0xFFF && f.id == 0 && f.layer == 0 && f.protectionAbsent == 1
            && f.fullness == 0x7FF && f.rawBlocks == 0
            && f.frameLength == n % 8192 && f.channels == channels % 8
            && f.profile == b2 / 64 && f.index == b2 / 4 % 16
  {
    LengthParts(n);
    var top, low := n / 2048 % 4, n % 8;
    assert b3 / 64 == channels % 4 && b3 % 4 == top;
    assert b5 / 32 == low && b5 % 32 == 0x1F;
    assert channels == 8 * (channels / 8) + channels / 4 % 2 * 4 + channels % 4;
  }

  predicate GoodHeader(f: Fields) {
    f.syncword == 0xFFF && f.layer == 0 && f.protectionAbsent == 1
  }

  /** Cutting a byte stream into raw frames, as a decoder told to expect ADTS does; None if the
      stream does not divide into whole frames. */
  function Cut(b: seq<byte>): Option<seq<seq<byte>>>
    decreases |b|
  {
    if b == [] then Some([])
    else if |b| < HEADER_SIZE then None
    else
      var f := ReadFields(b);
      var len := f.frameLength;
      if !GoodHeader(f) || len < HEADER_SIZE || len > |b| then None
      else
        var rest := Cut(b[len..]);
        if rest.None? then None else Some([b[HEADER_SIZE..len]] + rest.value)
  }

  /** One frame as the encoder appends it. */
  function AdtsFrame(payload: seq<byte>, rate: int, channels: byte): (f: seq<byte>)
    ensures |f| == HEADER_SIZE + |payload|
  {
    Header(|payload| + HEADER_SIZE, rate, channels) + payload
  }

  function Frames(payloads: seq<seq<byte>>, rate: int, channels: byte): seq<byte> {
    if payloads == [] then []
    else AdtsFrame(payloads[0], rate, channels) + Frames(payloads[1..], rate, channels)
  }

  lemma {:induction false} FramesSnoc(payloads: seq<seq<byte>>, p: seq<byte>, rate: int, channels: byte)
    ensures Frames(payloads + [p], rate, channels) == Frames(payloads, rate, channels) + AdtsFrame(p, rate, channels)
  {
    hide Header, AdtsFrame;
    if payloads == [] {
      assert [p][1..] == [];
    } else {
      FramesSnoc(payloads[1..], p, rate, channels);
      assert (payloads + [p])[1..] == payloads[1..] + [p];
    }
  }

  /** One raw frame behind its header. */
  method WriteFrame(p: seq<byte>, rate: int, channels: byte) returns (f: seq<byte>)
    ensures f == AdtsFrame(p, rate, channels)
  {
    hide Header;
    var frameLen := |p| + HEADER_SIZE;
    var frame := new byte[frameLen](_ => 0);
    WriteAdts(frame, frameLen, rate, channels);
    forall i | 0 <= i < |p| {
      frame[HEADER_SIZE + i] := p[i];
    }
    f := frame[..];
    assert f[..HEADER_SIZE] == Header(frameLen, rate, channels);
    assert f[HEADER_SIZE..] == p;
  }

  /** The output loop of Encode: for each raw frame the transform yields, the output grows by a
      header and the frame. */
  method Append(out: seq<byte>, payloads: seq<seq<byte>>, rate: int, channels: byte) returns (grown: seq<byte>)
    ensures grown == out + Frames(payloads, rate, channels)
  {
    hide AdtsFrame;
    grown := out;
    for k := 0 to |payloads|
      invariant grown == out + Frames(payloads[..k], rate, channels)
    {
      var frame := WriteFrame(payloads[k], rate, channels);
      FramesSnoc(payloads[..k], payloads[k], rate, channels);
      assert payloads[..k + 1] == payloads[..k] + [payloads[k]];
      grown := grown + frame;
    }
    assert payloads[..|payloads|] == payloads;
  }

  lemma CutFrame(p: seq<byte>, rate: int, channels: byte, rest: seq<byte>)
    requires |p| + HEADER_SIZE < 8192
    ensures var b := AdtsFrame(p, rate, channels) + rest;
            && ReadFields(b).frameLength == |p| + HEADER_SIZE
            && GoodHeader(ReadFields(b))
            && b[HEADER_SIZE..HEADER_SIZE + |p|] == p && b[HEADER_SIZE + |p|..] == rest
  {
    hide Header, ReadFields;
    var h := Header(|p| + HEADER_SIZE, rate, channels);
    FieldsOfHeader(|p| + HEADER_SIZE, rate, channels, p + rest);
    assert h + p + rest == h + (p + rest);
  }

  /** Round trip: any frames the loop appends, of up to 8191 bytes each with their headers, are
      cut back into the raw frames by a standard reader. */
  lemma {:induction false} CutOfFrames(payloads: seq<seq<byte>>, rate: int, channels: byte)
    requires forall p :: p in payloads ==> |p| + HEADER_SIZE < 8192
    ensures Cut(Frames(payloads, rate, channels)) == Some(payloads)
    decreases |payloads|
  {
    hide Header, ReadFields, AdtsFrame, GoodHeader;
    if payloads != [] {
      var p, rest := payloads[0], payloads[1..];
      assert p in payloads && forall q :: q in rest ==> q in payloads;
      CutOfFrames(rest, rate, channels);
      CutFrame(p, rate, channels, Frames(rest, rate, channels));
      assert [p] + rest == payloads;
    }
  }

  /** The limit is sharp: the length a reader finds is the frame's own exactly below 2^13. */
  lemma FrameLengthReadBackIff(p: seq<byte>, rate: int, channels: byte)
    ensures ReadFields(AdtsFrame(p, rate, channels)).frameLength == |p| + HEADER_SIZE
       <==> |p| + HEADER_SIZE < 8192
  {
    hide Header, ReadFields;
    FieldsOfHeader(|p| + HEADER_SIZE, rate, channels, p);
  }

  /** The header of a 371-byte AAC-LC frame at 48000 Hz in stereo, byte for byte. */
  lemma HeaderExample()
    ensures Header(371, 48000, 2) == [0xFF, 0xF1, 0x4C, 0x80, 0x2E, 0x7F, 0xFC]
  {
    hide Or, Pow2;
    Or76();
    OrZero(128);
    Or127();
    assert SamplingFrequencyIndex(48000) == 3;
    assert Or(Or(1 * 64, 3 * 4), 2 / 4) == 0x4C;
    assert Or(2 % 4 * 64, 371 / 2048 % 4) == 128;
  }

  lemma Or76()
    ensures Or(Or(1 * 64, 3 * 4), 0) == 0x4C
  {
    OrZero(16);
    OrBelow(4, 12, 4);
    OrZero(0x4C);
    assert Pow2(4) == 16;
  }

  lemma Or127()
    ensures Or(371 % 8 * 32, 0x1F) == 0x7F
  {
    OrBelow(3, 0x1F, 5);
    assert Pow2(5) == 32;
  }
}
