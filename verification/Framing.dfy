/** Message framing over a byte stream (host/src/net/server.cpp, tablet Client.kt):
    what is on the wire, and what a reader cuts out of it. */
module Framing {
  import opened Bytes

  const MAGIC := 0x21325053
  const VERSION := 1
  const HEADER_SIZE := 24

  datatype Message = Message(kind: nat, payload: seq<byte>)

  /** A message as sent: the sender also stamps a sequence number and a time. */
  datatype Sent = Sent(msg: Message, seqNo: int, tsUs: int)

  /** The packed sp_header struct. */
  function Header(kind: int, seqNo: int, tsUs: int, len: int): (h: seq<byte>)
    ensures |h| == HEADER_SIZE
  {
    U32(MAGIC) + U16(VERSION) + U16(kind) + U32(seqNo) + U64(tsUs) + U32(len)
  }

  function Frame(s: Sent): (f: seq<byte>)
    ensures |f| == HEADER_SIZE + |s.msg.payload|
  {
    Header(s.msg.kind, s.seqNo, s.tsUs, |s.msg.payload|) + s.msg.payload
  }

  function Stream(ss: seq<Sent>): seq<byte> {
    if ss == [] then [] else Frame(ss[0]) + Stream(ss[1..])
  }

  function Messages(ss: seq<Sent>): (ms: seq<Message>)
    ensures |ms| == |ss|
    ensures forall k :: 0 <= k < |ss| ==> ms[k] == ss[k].msg
  {
    seq(|ss|, k requires 0 <= k < |ss| => ss[k].msg)
  }

  /** A message the header can describe: a 16-bit type and a length below 2^31 (both ends
      pass the length on as a signed 32-bit integer). */
  predicate Framable(m: Message) {
    m.kind < 65536 && |m.payload| < TWO31
  }

  // ------------------------------------------------------------------ reading

  /** The two readers: the host checks magic and version, the tablet the magic only. */
  datatype Side = Host | Tablet

  datatype Cut =
    | Got(msg: Message, rest: seq<byte>)
    | Incomplete                  // the stream ends inside a message
    | BadHeader                   // the reader gives the connection up
    | NegativeLength              // the tablet cannot allocate the payload

  predicate HeaderAccepted(b: seq<byte>, side: Side)
    requires |b| >= HEADER_SIZE
  {
    ReadU32(b, 0) == MAGIC && (side.Host? ==> ReadU16(b, 4) == VERSION)
  }

  /** Reading one message off the front of `b`. A length of 2^31 or more is negative as a
      signed integer: the host then reads no payload bytes into its zeroed buffer, the tablet
      fails to allocate one. */
  function Next(b: seq<byte>, side: Side): Cut {
    if |b| < HEADER_SIZE then Incomplete
    else if !HeaderAccepted(b, side) then BadHeader
    else
      var kind, len := ReadU16(b, 6), ReadU32(b, 20);
      if len >= TWO31 then
        if side.Host? then Got(Message(kind, seq(len, _ => 0)), b[HEADER_SIZE..]) else NegativeLength
      else if |b| < HEADER_SIZE + len then Incomplete
      else Got(Message(kind, b[HEADER_SIZE..HEADER_SIZE + len]), b[HEADER_SIZE + len..])
  }

  /** Everything a reader delivers from `b` before the stream ends or it gives up. */
  function Deframe(b: seq<byte>, side: Side): seq<Message>
    decreases |b|
  {
    var c := Next(b, side);
    if c.Got? then [c.msg] + Deframe(c.rest, side) else []
  }

  lemma DeframeStep(got: seq<Message>, b: seq<byte>, side: Side)
    ensures var c := Next(b, side);
            if c.Got? then got + Deframe(b, side) == got + [c.msg] + Deframe(c.rest, side)
            else got + Deframe(b, side) == got
  {
  }

  // ------------------------------------------------------- reading undoes writing

  /** The header's layout: every field at the protocol's offset, little-endian. */
  lemma HeaderFields(kind: nat, seqNo: int, tsUs: int, len: nat, tail: seq<byte>)
    requires kind < 65536 && len < TWO31
    ensures var b := Header(kind, seqNo, tsUs, len) + tail;
            && ReadU32(b, 0) == MAGIC && ReadU16(b, 4) == VERSION
            && ReadU16(b, 6) == kind && ReadU32(b, 8) == seqNo % TWO32
            && ReadU32(b, 12) == tsUs % TWO32 && ReadU32(b, 16) == tsUs / TWO32 % TWO32
            && ReadU32(b, 20) == len
            && b[HEADER_SIZE..] == tail
  {
    hide U16, U32, ReadU16, ReadU32;
    var b := Header(kind, seqNo, tsUs, len) + tail;
    assert b[0..4] == U32(MAGIC);
    assert b[4..6] == U16(VERSION);
    assert b[6..8] == U16(kind);
    assert b[8..12] == U32(seqNo);
    assert b[12..16] == U32(tsUs);
    assert b[16..20] == U32(tsUs / TWO32);
    assert b[20..24] == U32(len);
    ReadU32OfU32(b, 8, seqNo);
    ReadU32OfU32(b, 12, tsUs);
    ReadU32OfU32(b, 16, tsUs / TWO32);
    ReadU32OfU32(b, 0, MAGIC);
    ReadU16OfU16(b, 4, VERSION);
    ReadU16OfU16(b, 6, kind);
    ReadU32OfU32(b, 20, len);
  }

  lemma NextOfFrame(s: Sent, rest: seq<byte>, side: Side)
    requires Framable(s.msg)
    ensures Next(Frame(s) + rest, side) == Got(s.msg, rest)
  {
    hide U16, U32, ReadU16, ReadU32, Header;
    var h, p := Header(s.msg.kind, s.seqNo, s.tsUs, |s.msg.payload|), s.msg.payload;
    HeaderFields(s.msg.kind, s.seqNo, s.tsUs, |p|, p + rest);
    assert Frame(s) + rest == h + (p + rest);
    var b := h + (p + rest);
    assert b[HEADER_SIZE..HEADER_SIZE + |p|] == (p + rest)[..|p|] == p;
    assert b[HEADER_SIZE + |p|..] == (p + rest)[|p|..] == rest;
  }

  lemma NextOfPartialFrame(s: Sent, k: nat, side: Side)
    requires Framable(s.msg)
    requires k < |Frame(s)|
    ensures Next(Frame(s)[..k], side) == Incomplete
  {
    hide U16, U32, ReadU16, ReadU32, Header;
    if k >= HEADER_SIZE {
      var h, p := Header(s.msg.kind, s.seqNo, s.tsUs, |s.msg.payload|), s.msg.payload;
      assert Frame(s)[..k] == h + p[..k - HEADER_SIZE];
      HeaderFields(s.msg.kind, s.seqNo, s.tsUs, |p|, p[..k - HEADER_SIZE]);
    }
  }

  /** How many of the messages lie wholly within the first k bytes of the stream. */
  function CompleteCount(ss: seq<Sent>, k: nat): (n: nat)
    ensures n <= |ss|
  {
    if ss == [] || k < |Frame(ss[0])| then 0 else 1 + CompleteCount(ss[1..], k - |Frame(ss[0])|)
  }

  /** CompleteCount is what it says: the n-th message ends within the cut, the next one does not. */
  lemma {:induction false} CompleteCountIs(ss: seq<Sent>, k: nat)
    ensures var n := CompleteCount(ss, k);
            && |Stream(ss[..n])| <= k
            && (n < |ss| ==> k < |Stream(ss[..n + 1])|)
  {
    hide Frame;
    if ss != [] && k >= |Frame(ss[0])| {
      var t, n := ss[1..], CompleteCount(ss[1..], k - |Frame(ss[0])|);
      CompleteCountIs(t, k - |Frame(ss[0])|);
      assert ss[..n + 1][1..] == t[..n];
      if n < |t| { assert ss[..n + 2][1..] == t[..n + 1]; }
    } else if ss != [] {
      assert ss[..1][1..] == [] && Stream([]) == [];
    }
  }

  lemma FirstMessage(ss: seq<Sent>, n: nat)
    requires ss != [] && n < |ss|
    ensures Messages(ss)[..n + 1] == [ss[0].msg] + Messages(ss[1..])[..n]
  {
  }

  /** A stream cut after any number of bytes delivers exactly the messages that are complete
      by then, in order, on either side; what follows a cut-off message never appears. */
  lemma {:induction false} DeframeOfCutStream(ss: seq<Sent>, k: nat, side: Side)
    requires forall s :: s in ss ==> Framable(s.msg)
    requires k <= |Stream(ss)|
    ensures Deframe(Stream(ss)[..k], side) == Messages(ss)[..CompleteCount(ss, k)]
    decreases |ss|
  {
    hide U16, U32, ReadU16, ReadU32, Header, Frame, Next;
    if ss != [] {
      var f, rest := Frame(ss[0]), Stream(ss[1..]);
      assert ss[0] in ss && forall s :: s in ss[1..] ==> s in ss;
      if k < |f| {
        assert Stream(ss)[..k] == f[..k];
        NextOfPartialFrame(ss[0], k, side);
      } else {
        assert Stream(ss)[..k] == f + rest[..k - |f|];
        NextOfFrame(ss[0], rest[..k - |f|], side);
        DeframeOfCutStream(ss[1..], k - |f|, side);
        FirstMessage(ss, CompleteCount(ss[1..], k - |f|));
      }
    } else {
      assert Stream(ss)[..k] == [];
      NoFrame(side);
    }
  }

  lemma NoFrame(side: Side)
    ensures Next([], side) == Incomplete
  {
  }

  /** The whole stream delivers the whole list. */
  lemma DeframeOfStream(ss: seq<Sent>, side: Side)
    requires forall s :: s in ss ==> Framable(s.msg)
    ensures Deframe(Stream(ss), side) == Messages(ss)
  {
    hide Frame, Deframe;
    var k := |Stream(ss)|;
    assert Stream(ss)[..k] == Stream(ss);
    DeframeOfCutStream(ss, k, side);
    CutAfter(ss);
  }

  lemma {:induction false} StreamConcat(a: seq<Sent>, b: seq<Sent>)
    ensures Stream(a + b) == Stream(a) + Stream(b)
    decreases |a|
  {
    hide Frame;
    if a == [] {
      assert a + b == b;
    } else {
      assert (a + b)[1..] == a[1..] + b;
      StreamConcat(a[1..], b);
    }
  }

  /** How many bytes of the stream a delivered message stands for: its header and its payload, but
      the header alone where the announced length was negative. */
  function Extent(m: Message): nat {
    24 + if |m.payload| < 0x8000_0000 then |m.payload| else 0
  }

  /** The bytes from `from` on hold these messages end to end: each behind a header its reader
      accepts, with the message's type and its length. A payload of 2^31 bytes or more is only
      ever the host's, and zeros that are not in the stream. */
  ghost predicate StandIn(b: seq<byte>, from: nat, ms: seq<Message>, side: Side)
    decreases |ms|
  {
    ms == [] || (FrameAt(b, from, ms[0], side) && StandIn(b, from + Extent(ms[0]), ms[1..], side))
  }

  ghost predicate FrameAt(b: seq<byte>, i: nat, m: Message, side: Side) {
    && i + Extent(m) <= |b|
    && b[i..i + 4] == [0x53, 0x50, 0x32, 0x21] && (side.Host? ==> b[i + 4..i + 6] == [1, 0])
    && ReadU16(b, i + 6) == m.kind && ReadU32(b, i + 20) == |m.payload|
    && if |m.payload| < 0x8000_0000 then b[i + 24..i + 24 + |m.payload|] == m.payload
       else side.Host? && forall k :: 0 <= k < |m.payload| ==> m.payload[k] == 0
  }

  lemma MagicAndVersion(b: seq<byte>, i: nat)
    requires i + 6 <= |b|
    ensures ReadU32(b, i) == MAGIC <==> b[i..i + 4] == [0x53, 0x50, 0x32, 0x21]
    ensures ReadU16(b, i + 4) == VERSION <==> b[i + 4..i + 6] == [1, 0]
  {
    var w, v := b[i..i + 4], b[i + 4..i + 6];
    assert w == [b[i], b[i + 1], b[i + 2], b[i + 3]] && v == [b[i + 4], b[i + 5]];
  }

  lemma WordsOfSuffix(b: seq<byte>, w: nat, i: nat)
    requires w + i + 24 <= |b|
    ensures ReadU16(b[w..], i + 6) == ReadU16(b, w + i + 6) && ReadU32(b[w..], i + 20) == ReadU32(b, w + i + 20)
  {
  }

  lemma FrameAtSuffix(b: seq<byte>, w: nat, i: nat, m: Message, side: Side)
    requires w <= |b| && FrameAt(b[w..], i, m, side)
    ensures FrameAt(b, w + i, m, side)
  {
    hide ReadU16, ReadU32;
    var c := b[w..];
    assert c[i..i + 4] == b[w + i..w + i + 4];
    assert side.Host? ==> c[i + 4..i + 6] == b[w + i + 4..w + i + 6];
    WordsOfSuffix(b, w, i);
    if |m.payload| < TWO31 {
      assert b[w..][i + HEADER_SIZE..i + HEADER_SIZE + |m.payload|]
          == b[w + i + HEADER_SIZE..w + i + HEADER_SIZE + |m.payload|];
    }
  }

  lemma {:induction false} StandInSuffix(b: seq<byte>, w: nat, from: nat, ms: seq<Message>, side: Side)
    requires w <= |b|
    requires StandIn(b[w..], from, ms, side)
    ensures StandIn(b, w + from, ms, side)
    decreases |ms|
  {
    hide FrameAt, Extent;
    if ms != [] {
      FrameAtSuffix(b, w, from, ms[0], side);
      StandInSuffix(b, w, from + Extent(ms[0]), ms[1..], side);
    }
  }

  lemma NextSound(b: seq<byte>, side: Side)
    requires Next(b, side).Got?
    ensures var c := Next(b, side);
            FrameAt(b, 0, c.msg, side) && Extent(c.msg) <= |b| && c.rest == b[Extent(c.msg)..]
  {
    MagicAndVersion(b, 0);
    hide ReadU16, ReadU32;
  }

  lemma Zeros(p: seq<byte>)
    requires forall k :: 0 <= k < |p| ==> p[k] == 0
    ensures p == seq(|p|, _ => 0)
  {
  }

  /** A reader takes a message off the front of the stream if and only if the stream begins with it,
      behind a header the reader accepts. */
  lemma NextIff(b: seq<byte>, m: Message, rest: seq<byte>, side: Side)
    ensures Next(b, side) == Got(m, rest) <==> FrameAt(b, 0, m, side) && rest == b[Extent(m)..]
  {
    if Next(b, side) == Got(m, rest) { NextSound(b, side); }
    if FrameAt(b, 0, m, side) {
      MagicAndVersion(b, 0);
      if |m.payload| >= TWO31 { Zeros(m.payload); }
    }
    hide ReadU16, ReadU32;
  }

  lemma {:induction false} CompleteCountAfter(a: seq<Sent>, b: seq<Sent>, k: nat)
    ensures CompleteCount(a + b, |Stream(a)| + k) == |a| + CompleteCount(b, k)
    decreases |a|
  {
    hide Frame;
    if a == [] {
      assert a + b == b;
    } else {
      assert (a + b)[1..] == a[1..] + b;
      CompleteCountAfter(a[1..], b, k);
    }
  }

  /** A frame being sent when the connection breaks: `k` of its bytes follow the stream. */
  lemma CutInside(ss: seq<Sent>, s: Sent, k: nat)
    requires k < |Frame(s)|
    ensures Stream(ss) + Frame(s)[..k] <= Stream(ss + [s])
    ensures CompleteCount(ss + [s], |Stream(ss)| + k) == |ss|
    ensures Stream(ss) + Frame(s) == Stream(ss + [s])
  {
    hide Frame;
    assert [s][1..] == [] && Stream([s]) == Frame(s) + [];
    StreamConcat(ss, [s]);
    CompleteCountAfter(ss, [s], k);
  }

  lemma CutAfter(ss: seq<Sent>)
    ensures CompleteCount(ss, |Stream(ss)|) == |ss|
  {
    CompleteCountAfter(ss, [], 0);
    assert ss + [] == ss;
  }

  /** The converse: whatever bytes arrive, the messages a reader delivers stand in them. */
  lemma {:induction false} DeframeSound(b: seq<byte>, side: Side)
    ensures StandIn(b, 0, Deframe(b, side), side)
    decreases |b|
  {
    hide Next, FrameAt, Extent;
    var c := Next(b, side);
    if c.Got? {
      var ms := Deframe(c.rest, side);
      assert Deframe(b, side) == [c.msg] + ms;
      NextSound(b, side);
      DeframeSound(c.rest, side);
      StandInSuffix(b, Extent(c.msg), 0, ms, side);
    }
  }

  /** A header's bytes: 'S', 'P', '2', '!', version 1, and the fields in the protocol's order. */
  lemma HeaderBytes(kind: int, seqNo: int, tsUs: int, len: int)
    ensures Header(kind, seqNo, tsUs, len)
         == [0x53, 0x50, 0x32, 0x21, 1, 0] + U16(kind) + U32(seqNo) + U64(tsUs) + U32(len)
  {
    LittleEndian(0x53, 0x50, 0x32, 0x21);
    LittleEndian(1, 0, 0, 0);
    assert U32(MAGIC) == [0x53, 0x50, 0x32, 0x21] && U16(VERSION) == [1, 0];
    hide U16, U32, U64;
  }
}
