/** The two socket ends as they run: short sends and receives, the server's frame calls
    (host/src/net/server.cpp) and the tablet's send and receive loop (tablet Client.kt). */
module Sockets {
  import opened Bytes
  import opened Framing

  /** A buffer after `piece` was written into it at `off`. */
  ghost predicate Wrote(before: seq<byte>, off: nat, piece: seq<byte>, after: seq<byte>) {
    off + |piece| <= |before| && after == before[..off] + piece + before[off + |piece|..]
  }

  lemma WroteByIndex(before: seq<byte>, off: nat, piece: seq<byte>, after: seq<byte>)
    requires off + |piece| <= |before| == |after|
    requires forall k :: 0 <= k < |after| ==>
               after[k] == if off <= k < off + |piece| then piece[k - off] else before[k]
    ensures Wrote(before, off, piece, after)
  {
    assert after == before[..off] + piece + before[off + |piece|..];
  }

  /** One end of a TCP connection. How much each call moves is not ours to choose: `recvPlan`
      and `sendPlan` fix, for every call number, what the network does, and everything below
      holds for all plans. */
  class Socket {
    const incoming: seq<byte>        // every byte the peer's side delivers before it closes
    const recvPlan: nat -> nat       // call number -> how many bytes beyond one this receive takes
    const sendPlan: nat -> int       // call number -> bytes this send takes; zero or less is an error
    var taken: nat                   // how much of `incoming` has been received
    var wire: seq<byte>              // every byte sent so far
    var calls: nat

    ghost predicate Valid()
      reads this
    {
      taken <= |incoming|
    }

    constructor (incoming: seq<byte>, recvPlan: nat -> nat, sendPlan: nat -> int)
      ensures Valid()
      ensures this.incoming == incoming && this.recvPlan == recvPlan && this.sendPlan == sendPlan
      ensures taken == 0 && wire == []
    {
      this.incoming, this.recvPlan, this.sendPlan := incoming, recvPlan, sendPlan;
      taken, wire, calls := 0, [], 0;
    }

    /** The recv system call: some of what is left, at least one byte, or 0 at the end. */
    method Recv(buf: array<byte>, off: nat, len: nat) returns (r: nat)
      requires Valid() && 0 < len && off + len <= buf.Length
      modifies this`taken, this`calls, buf
      ensures Valid() && r <= len
      ensures r == 0 <==> old(taken) == |incoming|
      ensures taken == old(taken) + r
      ensures Wrote(old(buf[..]), off, incoming[old(taken)..taken], buf[..])
    {
      hide Wrote;
      ghost var before := buf[..];
      var at := taken;
      r := 1 + recvPlan(calls);
      if r > len { r := len; }
      if r > |incoming| - at { r := |incoming| - at; }
      calls := calls + 1;
      taken := at + r;
      forall k | off <= k < off + r {
        buf[k] := incoming[at + k - off];
      }
      WroteByIndex(before, off, incoming[at..at + r], buf[..]);
    }

    /** The send system call: a positive number of the bytes offered, or an error. */
    method Send(bytes: seq<byte>) returns (r: int)
      requires bytes != []
      modifies this`wire, this`calls
      ensures r <= |bytes|
      ensures wire == if r <= 0 then old(wire) else old(wire) + bytes[..r]
    {
      r := sendPlan(calls);
      if r > |bytes| { r := |bytes|; }
      calls := calls + 1;
      if r > 0 { wire := wire + bytes[..r]; }
    }
  }

  /** The buffer holds the `got` bytes of the stream from `t0` on, and is as it was after them. */
  ghost predicate Filled(inc: seq<byte>, t0: nat, was: seq<byte>, got: nat, now: seq<byte>) {
    && got <= |was| && t0 + got <= |inc|
    && now == inc[t0..t0 + got] + was[got..]
  }

  lemma FilledFurther(inc: seq<byte>, t0: nat, was: seq<byte>, got: nat, r: nat, before: seq<byte>, after: seq<byte>)
    requires Filled(inc, t0, was, got, before)
    requires got + r <= |was| && t0 + got + r <= |inc|
    requires Wrote(before, got, inc[t0 + got..t0 + got + r], after)
    ensures Filled(inc, t0, was, got + r, after)
  {
    assert before[..got] == inc[t0..t0 + got];
    assert before[got + r..] == was[got + r..];
    assert inc[t0..t0 + got + r] == inc[t0..t0 + got] + inc[t0 + got..t0 + got + r];
  }

  lemma NothingFilled(inc: seq<byte>, t0: nat, was: seq<byte>)
    requires t0 <= |inc|
    ensures Filled(inc, t0, was, 0, was)
  {
    assert inc[t0..t0 + 0] + was[0..] == was;
  }

  function Asked(len: int): nat { if len < 0 then 0 else len }

  /** One receive of recv_exact's loop. */
  method RecvSome(s: Socket, buf: array<byte>, got: nat, len: nat, ghost t0: nat, ghost was: seq<byte>) returns (r: nat)
    requires s.Valid() && got < len <= buf.Length == |was|
    requires s.taken == t0 + got && Filled(s.incoming, t0, was, got, buf[..])
    modifies s`taken, s`calls, buf
    ensures s.Valid() && got + r <= len
    ensures s.taken == t0 + got + r && Filled(s.incoming, t0, was, got + r, buf[..])
    ensures r == 0 ==> s.taken == |s.incoming|
  {
    hide Filled, Wrote;
    ghost var before := buf[..];
    r := s.Recv(buf, got, len - got);
    FilledFurther(s.incoming, t0, was, got, r, before, buf[..]);
  }

  /** recv_exact, and Java's readFully: fills the first `len` bytes of `buf`, or fails because
      the stream ended. A negative `len` asks for nothing. */
  method RecvExact(s: Socket, buf: array<byte>, len: int) returns (ok: bool)
    requires s.Valid() && len <= buf.Length
    modifies s`taken, s`calls, buf
    ensures s.Valid()
    ensures ok <==> old(s.taken) + Asked(len) <= |s.incoming|
    ensures ok ==> s.taken == old(s.taken) + Asked(len)
    ensures ok ==> Filled(s.incoming, old(s.taken), old(buf[..]), Asked(len), buf[..])
    ensures !ok ==> s.taken == |s.incoming|
  {
    hide Filled;
    NothingFilled(s.incoming, s.taken, buf[..]);
    var got := 0;
    ghost var t0, was := s.taken, buf[..];
    while got < len
      invariant s.Valid() && got <= Asked(len)
      invariant s.taken == t0 + got
      invariant Filled(s.incoming, t0, was, got, buf[..])
      decreases len - got
    {
      var r := RecvSome(s, buf, got, len, t0, was);
      if r <= 0 {
        return false;
      }
      got := got + r;
    }
    return true;
  }

  /** send_all: all `len` bytes go out in order, or the send fails with a proper prefix sent.
      A negative `len` sends nothing and succeeds. */
  method SendAll(s: Socket, bytes: seq<byte>, len: int) returns (ok: bool)
    requires len <= |bytes|
    modifies s`wire, s`calls
    ensures ok && len >= 0 ==> s.wire == old(s.wire) + bytes[..len]
    ensures ok && len < 0 ==> s.wire == old(s.wire)
    ensures !ok ==> exists k :: 0 <= k < len && s.wire == old(s.wire) + bytes[..k]
  {
    var sent := 0;
    while sent < len
      invariant 0 <= sent && (len >= 0 ==> sent <= len) && (len < 0 ==> sent == 0)
      invariant s.wire == old(s.wire) + bytes[..sent]
      decreases len - sent
    {
      var r := s.Send(bytes[sent..len]);
      if r <= 0 {
        return false;
      }
      assert bytes[..sent + r] == bytes[..sent] + bytes[sent..len][..r];
      sent := sent + r;
    }
    return true;
  }

  /** The bytes this end has still to read. */
  ghost function Remaining(s: Socket): seq<byte>
    requires s.Valid()
    reads s
  {
    s.incoming[s.taken..]
  }

  /** The host's end (class TcpServer). */
  class TcpServer {
    var client: Socket?
    var seqNo: nat

    constructor ()
      ensures client == null && seqNo == 0
    {
      client, seqNo := null, 0;
    }

    /** A client is accepted: sequence numbers start over. */
    method Accept(s: Socket)
      modifies this
      ensures client == s && seqNo == 0
    {
      client, seqNo := s, 0;
    }

    method Disconnect()
      modifies this`client
      ensures client == null
    {
      client := null;
    }

    /** The bytes SendFrame puts on the wire when nothing fails. The length travels as a signed
        integer to send_all, so a payload of 2^31 bytes or more is announced but not sent. */
    ghost function Outgoing(kind: int, no: int, now: int, payload: seq<byte>): seq<byte> {
      Header(kind, no, now, |payload|) + (if |payload| < TWO31 then payload else [])
    }

    method SendFrame(kind: nat, payload: seq<byte>, now: int) returns (ok: bool)
      requires |payload| < TWO32
      modifies this, client
      ensures old(client) == null ==> !ok && client == null && seqNo == old(seqNo)
      ensures old(client) != null ==> seqNo == (old(seqNo) + 1) % TWO32
      ensures ok ==> client == old(client) != null
                     && client.wire == old(client.wire) + Outgoing(kind, seqNo, now, payload)
      ensures !ok && old(client) != null ==> client == null
      ensures !ok && old(client) != null ==>
                exists k :: 0 <= k < |Outgoing(kind, seqNo, now, payload)|
                            && old(client).wire == old(client.wire) + Outgoing(kind, seqNo, now, payload)[..k]
    {
      hide Header;
      if client == null {
        return false;
      }
      var s := client;
      ghost var before := s.wire;
      seqNo := (seqNo + 1) % TWO32;
      var h := Header(kind, seqNo, now, |payload|);
      ghost var all := Outgoing(kind, seqNo, now, payload);
      ok := SendAll(s, h, HEADER_SIZE);
      if !ok {
        ghost var k :| 0 <= k < HEADER_SIZE && s.wire == before + h[..k];
        assert all[..k] == h[..k];
        Disconnect();
        return false;
      }
      assert h[..HEADER_SIZE] == h;
      if |payload| != 0 {
        var len := Signed32(|payload|);
        ok := SendAll(s, payload, len);
        if !ok {
          ghost var k :| 0 <= k < len && s.wire == before + h + payload[..k];
          assert all[..HEADER_SIZE + k] == h + payload[..k];
          assert before + h + payload[..k] == before + (h + payload[..k]);
          Disconnect();
          return false;
        }
        assert len >= 0 ==> payload[..len] == payload;
      }
      assert s.wire == before + all;
      return true;
    }

    /** One poll for a message; `ready` is what select said. */
    method ReadFrame(ready: bool) returns (ok: bool, msg: Message)
      requires client != null ==> client.Valid()
      modifies this`client, client
      ensures client == null || client == old(client)
      ensures old(client) != null ==> old(client).Valid() && old(client).wire == old(client.wire)
      ensures old(client) == null ==> !ok
      ensures old(client) != null && !ready ==> !ok && client == old(client) && client.taken == old(client.taken)
      ensures old(client) != null && ready ==>
                var c := Next(old(Remaining(client)), Host);
                && ok == c.Got?
                && (ok ==> client == old(client) && msg == c.msg && Remaining(client) == c.rest)
                && (!ok ==> client == null)
    {
      hide U16, U32, ReadU16, ReadU32, Filled, Next;
      msg := Message(0, []);
      if client == null || !ready {
        return false, msg;
      }
      var s := client;
      ghost var b := Remaining(s);
      var header := new byte[HEADER_SIZE](_ => 0);
      ok := RecvExact(s, header, HEADER_SIZE);
      if !ok {
        NextWithoutHeader(b, Host);
        Disconnect();
        return false, msg;
      }
      HeaderReceived(s.incoming, old(s.taken), header[..]);
      var h := header[..];
      NextWithHeader(b, h, Host);
      if ReadU32(h, 0) != MAGIC || ReadU16(h, 4) != VERSION {
        Disconnect();
        return false, msg;
      }
      var kind, len := ReadU16(h, 6), ReadU32(h, 20);
      var payload := new byte[len](_ => 0);
      ghost var zeros := payload[..];
      if len != 0 {
        ok := RecvExact(s, payload, Signed32(len));
        if !ok {
          Disconnect();
          return false, msg;
        }
        PayloadReceived(s.incoming, old(s.taken) + HEADER_SIZE, zeros, Signed32(len), payload[..]);
      }
      return true, Message(kind, payload[..]);
    }
  }

  /** What is still to be delivered to the host. */
  ghost function Pending(srv: TcpServer): seq<Message>
    requires srv.client != null ==> srv.client.Valid()
    reads srv, srv.client
  {
    if srv.client == null then [] else Deframe(Remaining(srv.client), Host)
  }

  /** The host's main loop draining its socket, poll after poll, however the polls and the
      receives fall: nothing is lost, reordered or made up. Once the connection is over, every
      message the stream holds has been delivered. */
  method DrainHost(srv: TcpServer, polls: seq<bool>) returns (got: seq<Message>)
    requires srv.client != null && srv.client.Valid()
    modifies srv, srv.client
    ensures srv.client != null ==> srv.client.Valid()
    ensures got + Pending(srv) == old(Pending(srv))
    ensures srv.client == null ==> got == old(Pending(srv))
  {
    hide Next, Deframe;
    got := [];
    ghost var all := Pending(srv);
    assert [] + all == all;
    for k := 0 to |polls|
      invariant srv.client == null || srv.client == old(srv.client)
      invariant srv.client != null ==> srv.client.Valid()
      invariant got + Pending(srv) == all
    {
      if srv.client != null {
        DeframeStep(got, Remaining(srv.client), Host);
      }
      var ok, msg := srv.ReadFrame(polls[k]);
      if ok {
        got := got + [msg];
      }
    }
  }

  /** The host sending a run of messages until one fails; afterwards nothing more is sent.
      The wire then holds every message reported as sent, whole, and at most a part of one
      more; sequence numbers count the messages of the connection from 1. */
  method SendRun(srv: TcpServer, msgs: seq<Message>, now: seq<int>) returns (done: nat, ghost sent: seq<Sent>)
    requires srv.client != null && srv.client.wire == [] && srv.seqNo == 0
    requires |now| == |msgs| < TWO32
    requires forall m :: m in msgs ==> Framable(m)
    modifies srv, srv.client
    ensures done <= |sent| <= |msgs| && Messages(sent) == msgs[..|sent|]
    ensures srv.client != null ==> done == |msgs|
    ensures old(srv.client).wire <= Stream(sent)
    ensures CompleteCount(sent, |old(srv.client).wire|) == done
    ensures forall k :: 0 <= k < |sent| ==> sent[k].seqNo == k + 1 && sent[k].tsUs == now[k]
  {
    hide Frame, Header, Stream, CompleteCount;
    var s := srv.client;
    sent, done := [], 0;
    NothingSent();
    while done < |msgs|
      invariant done == |sent| <= |msgs| && srv.client == s
      invariant Messages(sent) == msgs[..done]
      invariant s.wire == Stream(sent) && srv.seqNo == done
      invariant forall k :: 0 <= k < |sent| ==> sent[k].seqNo == k + 1 && sent[k].tsUs == now[k]
    {
      assert msgs[done] in msgs;
      ghost var f := Sent(msgs[done], done + 1, now[done]);
      var ok := srv.SendFrame(msgs[done].kind, msgs[done].payload, now[done]);
      OutgoingIsFrame(srv, f);
      ghost var was := sent;
      sent := sent + [f];
      assert Messages(sent) == msgs[..done + 1];
      if !ok {
        ghost var k :| 0 <= k < |Frame(f)| && s.wire == Stream(was) + Frame(f)[..k];
        CutInside(was, f, k);
        return;
      }
      CutInside(was, f, 0);
      done := done + 1;
    }
    CutAfter(sent);
  }

  lemma NothingSent()
    ensures Stream([]) == [] && CompleteCount([], 0) == 0 && Messages([]) == []
  {
  }

  /** What the run above leaves on the wire is what the other end delivers: exactly the messages
      reported as sent, in order. */
  lemma SentIsDelivered(sent: seq<Sent>, wire: seq<byte>, done: nat, side: Side)
    requires forall s :: s in sent ==> Framable(s.msg)
    requires wire <= Stream(sent) && CompleteCount(sent, |wire|) == done
    ensures done <= |sent| && Deframe(wire, side) == Messages(sent)[..done]
  {
    hide Deframe, Stream;
    assert wire == Stream(sent)[..|wire|];
    DeframeOfCutStream(sent, |wire|, side);
  }

  lemma OutgoingIsFrame(srv: TcpServer, s: Sent)
    requires Framable(s.msg)
    ensures srv.Outgoing(s.msg.kind, s.seqNo, s.tsUs, s.msg.payload) == Frame(s)
  {
  }

  lemma HeaderReceived(inc: seq<byte>, t0: nat, h: seq<byte>)
    requires exists was :: |was| == HEADER_SIZE && Filled(inc, t0, was, HEADER_SIZE, h)
    ensures t0 + HEADER_SIZE <= |inc| && h == inc[t0..][..HEADER_SIZE]
  {
  }

  lemma PayloadReceived(inc: seq<byte>, t0: nat, was: seq<byte>, len: int, p: seq<byte>)
    requires Filled(inc, t0, was, Asked(len), p)
    ensures len < 0 ==> p == was
    ensures len == |was| ==> t0 + len <= |inc| && p == inc[t0..t0 + len]
  {
  }

  lemma NextWithoutHeader(b: seq<byte>, side: Side)
    requires |b| < HEADER_SIZE
    ensures Next(b, side) == Incomplete
  {
  }

  /** Next, in terms of the header as received. */
  lemma NextWithHeader(b: seq<byte>, h: seq<byte>, side: Side)
    requires |b| >= HEADER_SIZE && h == b[..HEADER_SIZE]
    ensures ReadU32(h, 20) < TWO32
    ensures Next(b, side) ==
            if ReadU32(h, 0) != MAGIC || (side.Host? && ReadU16(h, 4) != VERSION) then BadHeader
            else
              var kind, len := ReadU16(h, 6), ReadU32(h, 20);
              if len >= TWO31 then
                if side.Host? then Got(Message(kind, seq(len, _ => 0)), b[HEADER_SIZE..]) else NegativeLength
              else if |b| < HEADER_SIZE + len then Incomplete
              else Got(Message(kind, b[HEADER_SIZE..HEADER_SIZE + len]), b[HEADER_SIZE + len..])
  {
    HeaderOf(b, h);
    U32OfReadU32(h, 20);
  }

  lemma HeaderOf(b: seq<byte>, h: seq<byte>)
    requires |b| >= HEADER_SIZE && h == b[..HEADER_SIZE]
    ensures ReadU32(h, 0) == ReadU32(b, 0) && ReadU16(h, 4) == ReadU16(b, 4)
    ensures ReadU16(h, 6) == ReadU16(b, 6) && ReadU32(h, 20) == ReadU32(b, 20)
  {
  }

  // ------------------------------------------------------------- the tablet's end

  /** The tablet's sendRaw: the header goes out byte by byte, then the payload, under one lock;
      an exception closes the connection. */
  method SendRaw(s: Socket, header: seq<byte>, payload: seq<byte>) returns (ok: bool)
    modifies s`wire, s`calls
    ensures ok ==> s.wire == old(s.wire) + header + payload
    ensures !ok ==> exists k :: 0 <= k < |header + payload| && s.wire == old(s.wire) + (header + payload)[..k]
  {
    ghost var before, all := s.wire, header + payload;
    for k := 0 to |header|
      invariant s.wire == before + header[..k]
    {
      ok := SendAll(s, [header[k]], 1);
      if !ok {
        assert s.wire == before + all[..k];
        return false;
      }
      assert before + header[..k] + [header[k]][..1] == before + header[..k + 1];
    }
    assert header[..|header|] == header;
    ok := SendAll(s, payload, |payload|);
    if !ok {
      ghost var k :| 0 <= k < |payload| && s.wire == before + header + payload[..k];
      assert before + header + payload[..k] == before + all[..|header| + k];
      return false;
    }
    assert payload[..|payload|] == payload;
  }

  /** How the receive loop ended. */
  datatype LoopEnd = StreamEnded | MagicRefused | AllocationFailed

  /** One round of the tablet's receiveLoop: a header, its magic, the payload. */
  method ReceiveOne(s: Socket) returns (end: Option<LoopEnd>, msg: Message)
    requires s.Valid()
    modifies s`taken, s`calls
    ensures s.Valid()
    ensures var c := Next(old(Remaining(s)), Tablet);
            if end.None? then c == Got(msg, Remaining(s)) && s.taken > old(s.taken) else !c.Got?
  {
    hide U16, U32, ReadU16, ReadU32, Filled, Next;
    msg := Message(0, []);
    ghost var b, t0 := Remaining(s), s.taken;
    var header := new byte[HEADER_SIZE](_ => 0);
    var ok := RecvExact(s, header, HEADER_SIZE);
    if !ok {
      NextWithoutHeader(b, Tablet);
      return Some(StreamEnded), msg;
    }
    HeaderReceived(s.incoming, t0, header[..]);
    var h := header[..];
    NextWithHeader(b, h, Tablet);
    if ReadU32(h, 0) != MAGIC {
      return Some(MagicRefused), msg;
    }
    var kind, len := ReadU16(h, 6), Signed32(ReadU32(h, 20));
    if len < 0 {
      return Some(AllocationFailed), msg;
    }
    var payload := new byte[len](_ => 0);
    ghost var zeros := payload[..];
    ok := RecvExact(s, payload, len);
    if !ok {
      return Some(StreamEnded), msg;
    }
    PayloadReceived(s.incoming, t0 + HEADER_SIZE, zeros, len, payload[..]);
    return None, Message(kind, payload[..]);
  }

  /** The tablet's receiveLoop as a reader: it delivers exactly what the stream holds, whatever
      the receives return, and stops where the stream does. */
  method ReceiveLoop(s: Socket) returns (got: seq<Message>, end: LoopEnd)
    requires s.Valid()
    modifies s`taken, s`calls
    ensures s.Valid()
    ensures got == Deframe(old(Remaining(s)), Tablet)
  {
    hide Next, Deframe;
    got := [];
    ghost var all := Deframe(Remaining(s), Tablet);
    assert [] + all == all;
    while true
      invariant s.Valid()
      invariant got + Deframe(Remaining(s), Tablet) == all
      decreases |s.incoming| - s.taken
    {
      DeframeStep(got, Remaining(s), Tablet);
      var e, msg := ReceiveOne(s);
      if e.Some? {
        return got, e.value;
      }
      got := got + [msg];
    }
  }
}
