/** The video-frame payload: written by the host (host/src/main.cpp), read by the tablet
    (tablet Protocol.kt). */
module VideoPayload {
  import opened Bytes
  import opened Nal

  /** The exceptions a tablet-side parser can raise. */
  datatype Fault = BufferUnderflow | NegativeArraySize

  datatype Result<+T> = Ok(value: T) | Err(fault: Fault)

  /** What the tablet hands its decoder. */
  datatype VideoFrame = VideoFrame(keyframe: bool, codec: int, displayW: int, displayH: int, nals: seq<NalUnit>)

  const VIDEO_HEADER_SIZE := 12

  /** The packed sp_video_frame struct. */
  function VideoHeader(keyframe: bool, codec: int, displayW: int, displayH: int): (h: seq<byte>)
    ensures |h| == VIDEO_HEADER_SIZE
  {
    [if keyframe then 1 else 0, codec % 256, 0, 0] + U32(displayW) + U32(displayH)
  }

  /** Each unit behind its 32-bit length. */
  function Counted(nals: seq<NalUnit>): seq<byte> {
    if nals == [] then [] else U32(|nals[0]|) + nals[0] + Counted(nals[1..])
  }

  function Container(nals: seq<NalUnit>): seq<byte> {
    U32(|nals|) + Counted(nals)
  }

  lemma {:induction false} CountedSnoc(nals: seq<NalUnit>, n: NalUnit)
    ensures Counted(nals + [n]) == Counted(nals) + U32(|n|) + n
  {
    hide U32;
    if nals == [] {
      assert [n][1..] == [];
      assert Counted([n]) == U32(|n|) + n + [];
    } else {
      CountedSnoc(nals[1..], n);
      assert (nals + [n])[1..] == nals[1..] + [n];
    }
  }

  method BuildVideoPayload(nals: seq<NalUnit>) returns (out: seq<byte>)
    ensures out == Container(nals)
  {
    out := U32(|nals|);
    for k := 0 to |nals|
      invariant out == U32(|nals|) + Counted(nals[..k])
    {
      CountedSnoc(nals[..k], nals[k]);
      assert nals[..k + 1] == nals[..k] + [nals[k]];
      out := out + U32(|nals[k]|);
      out := out + nals[k];
    }
    assert nals[..|nals|] == nals;
  }

  function Prepend(n: NalUnit, r: Result<seq<NalUnit>>): Result<seq<NalUnit>> {
    if r.Ok? then Ok([n] + r.value) else r
  }

  /** Reading `count` length-prefixed units from the front of `y`; what follows them is ignored. */
  function ReadUnits(y: seq<byte>, count: int): (r: Result<seq<NalUnit>>)
    decreases count
  {
    if count <= 0 then Ok([])
    else if |y| < 4 then Err(BufferUnderflow)
    else
      var len := Signed32(ReadU32(y, 0));
      if len < 0 then Err(NegativeArraySize)
      else if |y| < 4 + len then Err(BufferUnderflow)
      else Prepend(y[4..4 + len], ReadUnits(y[4 + len..], count - 1))
  }

  function Parse(p: seq<byte>): Result<VideoFrame> {
    if |p| < 16 then Err(BufferUnderflow)
    else
      var r := ReadUnits(p[16..], Signed32(ReadU32(p, 12)));
      if r.Err? then Err(r.fault)
      else Ok(VideoFrame(p[0] != 0, Signed8(p[1]), Signed32(ReadU32(p, 4)), Signed32(ReadU32(p, 8)), r.value))
  }

  lemma NoMoreUnits(y: seq<byte>, count: int)
    requires count <= 0
    ensures ReadUnits(y, count) == Ok([])
  {
  }

  lemma WordAt(p: seq<byte>, pos: nat)
    requires pos + 4 <= |p|
    ensures ReadU32(p[pos..], 0) == ReadU32(p, pos)
  {
  }

  /** Reading from the middle of a payload. */
  lemma ReadUnitsAt(p: seq<byte>, pos: nat, count: int)
    requires pos <= |p| && count > 0
    ensures ReadUnits(p[pos..], count) ==
            if |p| < pos + 4 then Err(BufferUnderflow)
            else
              var len := Signed32(ReadU32(p, pos));
              if len < 0 then Err(NegativeArraySize)
              else if |p| < pos + 4 + len then Err(BufferUnderflow)
              else Prepend(p[pos + 4..pos + 4 + len], ReadUnits(p[pos + 4 + len..], count - 1))
  {
    var y := p[pos..];
    if |p| >= pos + 4 {
      WordAt(p, pos);
      hide ReadU32, Prepend;
      var len := Signed32(ReadU32(p, pos));
      if len >= 0 && |p| >= pos + 4 + len {
        assert y[4..4 + len] == p[pos + 4..pos + 4 + len] && y[4 + len..] == p[pos + 4 + len..];
      }
    }
  }

  function PrependAll(ns: seq<NalUnit>, r: Result<seq<NalUnit>>): Result<seq<NalUnit>> {
    if r.Ok? then Ok(ns + r.value) else r
  }

  /** The tablet's parser: a cursor moves over the payload, and any read past its end or
      negative length ends the parse with that fault. */
  method ParseVideoFrame(payload: seq<byte>) returns (r: Result<VideoFrame>)
    ensures r == Parse(payload)
  {
    hide U16, U32, ReadU16, ReadU32, ReadUnits;
    if |payload| < 16 {
      return Err(BufferUnderflow);
    }
    var keyframe := payload[0] != 0;
    var codec := Signed8(payload[1]);
    var dw, dh := Signed32(ReadU32(payload, 4)), Signed32(ReadU32(payload, 8));
    var nals: seq<NalUnit> := [];
    var count := Signed32(ReadU32(payload, 12));
    ghost var all := ReadUnits(payload[16..], count);
    assert all == PrependAll([], all) by {
      if all.Ok? { assert [] + all.value == all.value; }
    }
    var pos, i := 16, 0;
    while i < count
      invariant 16 <= pos <= |payload|
      invariant 0 <= i && (0 <= count ==> i <= count) && (count < 0 ==> i == 0)
      invariant all == PrependAll(nals, ReadUnits(payload[pos..], count - i))
    {
      ReadUnitsAt(payload, pos, count - i);
      if |payload| < pos + 4 {
        return Err(BufferUnderflow);
      }
      var len := Signed32(ReadU32(payload, pos));
      pos := pos + 4;
      if len < 0 {
        return Err(NegativeArraySize);
      }
      if |payload| < pos + len {
        return Err(BufferUnderflow);
      }
      PrependTwice(nals, payload[pos..pos + len], ReadUnits(payload[pos + len..], count - i - 1));
      nals := nals + [payload[pos..pos + len]];
      pos := pos + len;
      i := i + 1;
    }
    NoMoreUnits(payload[pos..], count - i);
    assert nals + [] == nals;
    return Ok(VideoFrame(keyframe, codec, dw, dh, nals));
  }

  lemma PrependTwice(ns: seq<NalUnit>, n: NalUnit, r: Result<seq<NalUnit>>)
    ensures PrependAll(ns, Prepend(n, r)) == PrependAll(ns + [n], r)
  {
    if r.Ok? {
      assert ns + ([n] + r.value) == ns + [n] + r.value;
    }
  }

  // --------------------------------------------------- what the parser accepts

  /** `y` begins with exactly these units in the host's container layout. */
  ghost predicate BeginsWithUnits(y: seq<byte>, nals: seq<NalUnit>) {
    && (forall n :: n in nals ==> |n| < TWO31)
    && Counted(nals) <= y
  }

  /** A string in three pieces is a prefix of `y` when each piece stands in its place. */
  lemma PrefixInThree(y: seq<byte>, w: seq<byte>, n: seq<byte>, t: seq<byte>)
    ensures w + n + t <= y <==>
            && |y| >= |w| + |n|
            && y[..|w|] == w
            && y[|w|..|w| + |n|] == n
            && t <= y[|w| + |n|..]
  {
    var c := w + n + t;
    if c <= y {
      assert y == w + n + (t + y[|c|..]);
      assert y[|w| + |n|..] == t + y[|c|..];
    }
  }

  lemma ReadUnitsStep(y: seq<byte>, n: nat, count: nat)
    requires n < TWO31 && |y| >= 4 + n && ReadU32(y, 0) == n
    ensures ReadUnits(y, count + 1) == Prepend(y[4..4 + n], ReadUnits(y[4 + n..], count))
  {
  }

  lemma ReadUnitsFirst(y: seq<byte>, count: nat)
    requires count > 0 && ReadUnits(y, count).Ok?
    ensures |y| >= 4
    ensures var n := ReadU32(y, 0);
            && n < TWO31 && |y| >= 4 + n
            && ReadUnits(y[4 + n..], count - 1).Ok?
            && ReadUnits(y, count).value == [y[4..4 + n]] + ReadUnits(y[4 + n..], count - 1).value
  {
    assert |y| >= 4;
    U32OfReadU32(y, 0);
    hide ReadU32, U32;
  }

  lemma NothingBegins(y: seq<byte>)
    ensures BeginsWithUnits(y, [])
  {
  }

  lemma OneUnitMore(y: seq<byte>, n: nat, rest: seq<NalUnit>)
    requires n < TWO31 && |y| >= 4 + n && ReadU32(y, 0) == n && BeginsWithUnits(y[4 + n..], rest)
    ensures BeginsWithUnits(y, [y[4..4 + n]] + rest)
  {
    hide U16, U32, ReadU16, ReadU32;
    U32OfReadU32(y, 0);
    PrefixInThree(y, U32(n), y[4..4 + n], Counted(rest));
    assert ([y[4..4 + n]] + rest)[1..] == rest;
  }

  lemma {:induction false} ReadUnitsSound(y: seq<byte>, count: nat)
    requires ReadUnits(y, count).Ok?
    ensures |ReadUnits(y, count).value| == count && BeginsWithUnits(y, ReadUnits(y, count).value)
    decreases count
  {
    hide ReadU32, ReadUnits, BeginsWithUnits;
    if count > 0 {
      ReadUnitsFirst(y, count);
      var n := ReadU32(y, 0);
      ReadUnitsSound(y[4 + n..], count - 1);
      OneUnitMore(y, n, ReadUnits(y[4 + n..], count - 1).value);
    } else {
      NoMoreUnits(y, count);
      NothingBegins(y);
    }
  }

  lemma {:induction false} ReadUnitsComplete(y: seq<byte>, nals: seq<NalUnit>)
    requires BeginsWithUnits(y, nals)
    ensures ReadUnits(y, |nals|) == Ok(nals)
    decreases |nals|
  {
    hide U16, U32, ReadU16, ReadU32, ReadUnits, BeginsWithUnits;
    if nals == [] {
      NoMoreUnits(y, 0);
    } else {
      var n, rest := nals[0], nals[1..];
      FirstUnit(y, nals);
      ReadUnitsComplete(y[4 + |n|..], rest);
      ReadUnitsStep(y, |n|, |rest|);
      assert [n] + rest == nals;
    }
  }

  /** Bytes that begin with some units begin with the first one's length and bytes, and go on
      with the rest. */
  lemma FirstUnit(y: seq<byte>, nals: seq<NalUnit>)
    requires nals != [] && BeginsWithUnits(y, nals)
    ensures var n := nals[0];
            && |n| < TWO31 && |y| >= 4 + |n|
            && ReadU32(y, 0) == |n| && y[4..4 + |n|] == n
            && BeginsWithUnits(y[4 + |n|..], nals[1..])
  {
    hide U16, U32, ReadU16, ReadU32;
    var n, rest := nals[0], nals[1..];
    assert n in nals && forall m :: m in rest ==> m in nals;
    PrefixInThree(y, U32(|n|), n, Counted(rest));
    ReadU32OfU32(y, 0, |n|);
  }

  /** The parser reads `count` units out of `y` exactly when `y` begins with the host's
      serialisation of them: sound and complete, and never another list. */
  lemma ReadUnitsIff(y: seq<byte>, count: nat, nals: seq<NalUnit>)
    ensures ReadUnits(y, count) == Ok(nals) <==> |nals| == count && BeginsWithUnits(y, nals)
  {
    if ReadUnits(y, count) == Ok(nals) { ReadUnitsSound(y, count); }
    if |nals| == count && BeginsWithUnits(y, nals) { ReadUnitsComplete(y, nals); }
  }

  /** The payloads the tablet accepts, and what it reads from each: a twelve-byte header, a
      signed unit count, and the host's serialisation of that many units (none for a negative
      count), with any bytes after them. */
  lemma ParseIff(p: seq<byte>, f: VideoFrame)
    ensures Parse(p) == Ok(f) <==>
            && |p| >= 16
            && f.keyframe == (p[0] != 0) && f.codec == Signed8(p[1])
            && f.displayW == Signed32(ReadU32(p, 4)) && f.displayH == Signed32(ReadU32(p, 8))
            && var count := Signed32(ReadU32(p, 12));
            && |f.nals| == (if count < 0 then 0 else count)
            && BeginsWithUnits(p[16..], f.nals)
  {
    if |p| >= 16 {
      var count := Signed32(ReadU32(p, 12));
      if count >= 0 {
        ReadUnitsIff(p[16..], count, f.nals);
      }
    }
  }

  /** Round trip: what the host sends is what the tablet hands its decoder. */
  lemma ParseOfHostPayload(keyframe: bool, codec: nat, w: nat, h: nat, nals: seq<NalUnit>)
    requires codec < 128 && w < TWO31 && h < TWO31 && |nals| < TWO31
    requires forall n :: n in nals ==> |n| < TWO31
    ensures Parse(VideoHeader(keyframe, codec, w, h) + Container(nals))
         == Ok(VideoFrame(keyframe, codec, w, h, nals))
  {
    var p := VideoHeader(keyframe, codec, w, h) + Container(nals);
    HostPayloadFields(keyframe, codec, w, h, nals);
    WholeContainer(nals);
    hide *;
    ParseIff(p, VideoFrame(keyframe, codec, w, h, nals));
  }

  lemma WholeContainer(nals: seq<NalUnit>)
    requires forall n :: n in nals ==> |n| < TWO31
    ensures BeginsWithUnits(Counted(nals), nals)
  {
  }

  lemma HostPayloadFields(keyframe: bool, codec: nat, w: nat, h: nat, nals: seq<NalUnit>)
    requires codec < 128 && w < TWO31 && h < TWO31 && |nals| < TWO31
    ensures var p := VideoHeader(keyframe, codec, w, h) + Container(nals);
            && |p| >= 16 && keyframe == (p[0] != 0) && codec == Signed8(p[1])
            && w == Signed32(ReadU32(p, 4)) && h == Signed32(ReadU32(p, 8)) && |nals| == Signed32(ReadU32(p, 12))
            && p[16..] == Counted(nals)
  {
    var p := VideoHeader(keyframe, codec, w, h) + Container(nals);
    var head: seq<byte> := [if keyframe then 1 else 0, codec % 256, 0, 0];
    assert p == head + U32(w) + U32(h) + U32(|nals|) + Counted(nals);
    PayloadFields(head, w, h, |nals|, Counted(nals));
    assert p[..4][0] == p[0] && p[..4][1] == p[1];
    hide U32, ReadU32, Counted;
  }

  lemma PayloadFields(head: seq<byte>, w: nat, h: nat, n: nat, tail: seq<byte>)
    requires |head| == 4 && w < TWO31 && h < TWO31 && n < TWO31
    ensures var p := head + U32(w) + U32(h) + U32(n) + tail;
            && p[..4] == head && ReadU32(p, 4) == w && ReadU32(p, 8) == h && ReadU32(p, 12) == n
            && p[16..] == tail
  {
    hide U16, U32, ReadU16, ReadU32;
    var p := head + U32(w) + U32(h) + U32(n) + tail;
    assert p[4..8] == U32(w);
    assert p[8..12] == U32(h);
    assert p[12..16] == U32(n);
    ReadU32OfU32(p, 4, w);
    ReadU32OfU32(p, 8, h);
    ReadU32OfU32(p, 12, n);
  }

  /** A split's units are no longer than its input, and hardly more than its bytes. */
  lemma {:induction false} SplitSizes(y: seq<byte>)
    ensures |Units(y)| <= |y| + 1
    ensures forall n :: n in Units(y) ==> |n| <= |y|
    decreases |y|
  {
    var s := FindStart(y, 0);
    if s < |y| {
      SplitSizes(y[s + 3..]);
    }
  }

  /** From encoder output to decoder input: the units of the host's split, carried through the
      payload and behind fresh start codes, split into the same units, with the same answer to
      whether there is an IDR slice among them. */
  lemma EncoderToDecoder(x: seq<byte>, keyframe: bool, codec: nat, w: nat, h: nat)
    requires |x| < TWO31 && codec < 128 && w < TWO31 && h < TWO31
    ensures var r := Parse(VideoHeader(keyframe, codec, w, h) + Container(Split(x)));
            && r == Ok(VideoFrame(keyframe, codec, w, h, Split(x)))
            && Split(AnnexB(r.value.nals)) == Split(x)
            && AnyIdrSlice(Split(AnnexB(r.value.nals))) == AnyIdrSlice(Split(x))
  {
    var s := FindStart(x, 0);
    if s < |x| { SplitSizes(x[s + 3..]); }
    ParseOfHostPayload(keyframe, codec, w, h, Split(x));
    AnnexBKeepsSplit(x);
  }

  // ------------------------------------------------------------------ what is on the wire

  /** The header's twelve bytes, and the units after it: a count, and each unit behind its length. */
  lemma PayloadBytes(keyframe: bool, codec: byte, w: int, h: int, n: NalUnit, nals: seq<NalUnit>)
    ensures VideoHeader(keyframe, codec, w, h) == [if keyframe then 1 else 0, codec, 0, 0] + U32(w) + U32(h)
    ensures Container(nals) == U32(|nals|) + Counted(nals) && Counted([]) == []
    ensures Counted([n] + nals) == U32(|n|) + n + Counted(nals)
  {
    assert ([n] + nals)[1..] == nals;
  }
}
