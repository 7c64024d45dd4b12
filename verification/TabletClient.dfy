/** The tablet's sending side as it runs (tablet Client.kt, Protocol.kt): headers, requests and input
    batches on one connection, and what the host makes of them. */
module TabletClient {
  import opened Bytes
  import opened Framing
  import opened Sockets
  import opened InputBatch

  const MSG_KEYFRAME_REQ := 4

  /** The header, field by field into a 24-byte buffer. */
  method PackHeader(kind: int, payloadLen: int, seqNo: int := 0, tsUs: int := 0) returns (h: seq<byte>)
    ensures h == Header(kind, seqNo, tsUs, payloadLen)
  {
    hide U16, U32;
    var buf := new byte[HEADER_SIZE](_ => 0);
    var pos := Put(buf, 0, U32(MAGIC));
    pos := Put(buf, pos, U16(VERSION));
    pos := Put(buf, pos, U16(kind));
    assert buf[..pos] == U32(MAGIC) + U16(VERSION) + U16(kind);
    pos := Put(buf, pos, U32(seqNo));
    pos := Put(buf, pos, U64(tsUs));
    pos := Put(buf, pos, U32(payloadLen));
    h := buf[..];
    assert h == buf[..pos];
  }

  /** What the tablet asks of the host once the handshake is over. */
  datatype Request = KeyframeRequest | Batch(events: seq<InputEvent>)

  function MessageOf(r: Request): Message {
    match r
    case KeyframeRequest => Message(MSG_KEYFRAME_REQ, [])
    case Batch(events) => Message(MSG_INPUT_BATCH, PackBatch(events))
  }

  /** As sent: every header carries sequence number and time 0. */
  function AsSent(r: Request): Sent { Sent(MessageOf(r), 0, 0) }

  function AllSent(rs: seq<Request>): (ss: seq<Sent>)
    ensures |ss| == |rs|
    ensures forall k :: 0 <= k < |rs| ==> ss[k] == AsSent(rs[k])
  {
    seq(|rs|, k requires 0 <= k < |rs| => AsSent(rs[k]))
  }

  /** Empty batches are not sent. */
  function Wanted(rs: seq<Request>): seq<Request> {
    if rs == [] then []
    else
      var n := |rs| - 1;
      if rs[n] == Batch([]) then Wanted(rs[..n]) else Wanted(rs[..n]) + [rs[n]]
  }

  /** A batch within the length field whose events fit the wire. */
  ghost predicate Sendable(r: Request) {
    r.Batch? ==> 4 + EVENT_SIZE * |r.events| < TWO31 && forall e :: e in r.events ==> Representable(e)
  }

  class Client {
    const out: Socket
    var open: bool
    var connected: bool

    constructor (out: Socket)
      ensures this.out == out && open && connected
    {
      this.out, open, connected := out, true, true;
    }

    method Disconnect()
      modifies this
      ensures !open && !connected
    {
      connected := false;
      open := false;
    }

    /** sendRaw: header and payload go out whole, or an exception ends the connection with a proper
        part of them sent; on a closed connection nothing is sent. */
    method SendRaw(header: seq<byte>, payload: seq<byte>) returns (ok: bool)
      requires header != []
      modifies this, out`wire, out`calls
      ensures ok ==> old(open) && open && connected == old(connected) && out.wire == old(out.wire) + header + payload
      ensures !ok ==> !open && !connected
      ensures !ok && old(open) ==> exists k :: 0 <= k < |header + payload| && out.wire == old(out.wire) + (header + payload)[..k]
      ensures !old(open) ==> !ok && out.wire == old(out.wire)
    {
      ok := open;
      if ok {
        ok := Sockets.SendRaw(out, header, payload);
      }
      if !ok {
        Disconnect();
      }
    }

    /** A request is one whole frame on the wire, or the connection's end with a proper part of one;
        an empty batch, or any request after that end, is nothing. */
    method Send(r: Request) returns (ok: bool)
      requires Sendable(r) && connected == open
      modifies this, out`wire, out`calls
      ensures connected == open && (open ==> old(open))
      ensures ok <==> open && r != Batch([])
      ensures ok ==> out.wire == old(out.wire) + Frame(AsSent(r))
      ensures r == Batch([]) || !old(open) ==> out.wire == old(out.wire) && open == old(open)
      ensures old(open) && !open ==>
                exists k :: 0 <= k < |Frame(AsSent(r))| && out.wire == old(out.wire) + Frame(AsSent(r))[..k]
    {
      hide U32, Header, PackBatch;
      match r {
        case KeyframeRequest =>
          var h := PackHeader(MSG_KEYFRAME_REQ, 0);
          ok := SendRaw(h, []);
          assert h + [] == Frame(AsSent(r));
        case Batch(events) =>
          if !connected || events == [] {
            return false;
          }
          var h := PackHeader(MSG_INPUT_BATCH, 4 + |events| * 12);
          var p := PackInputBatch(events);
          BatchLength(events);
          ok := SendRaw(h, p);
          assert h + p == Frame(AsSent(r));
      }
    }
  }

  lemma BatchLength(events: seq<InputEvent>)
    ensures |PackBatch(events)| == 4 + |events| * 12
  {
  }

  lemma SendableIsFramable(r: Request)
    requires Sendable(r)
    ensures Framable(MessageOf(r))
  {
    if r.Batch? { BatchLength(r.events); }
  }

  lemma AllSentSnoc(rs: seq<Request>, r: Request)
    ensures AllSent(rs + [r]) == AllSent(rs) + [AsSent(r)]
  {
  }

  lemma WantedSnoc(rs: seq<Request>, k: nat)
    requires k < |rs|
    ensures Wanted(rs[..k + 1]) == if rs[k] == Batch([]) then Wanted(rs[..k]) else Wanted(rs[..k]) + [rs[k]]
  {
    assert rs[..k + 1][..k] == rs[..k];
  }

  /** The requests that have been tried are the first of those wanted. */
  ghost predicate Tried(rs: seq<Request>, sent: seq<Sent>) {
    |sent| <= |Wanted(rs)| && sent == AllSent(Wanted(rs)[..|sent|])
  }

  lemma TriedMore(rs: seq<Request>, k: nat, sent: seq<Sent>)
    requires k < |rs| && Tried(rs[..k], sent)
    ensures Tried(rs[..k + 1], sent)
    ensures rs[k] != Batch([]) && |sent| == |Wanted(rs[..k])| ==> Tried(rs[..k + 1], sent + [AsSent(rs[k])])
  {
    WantedSnoc(rs, k);
    var w := Wanted(rs[..k]);
    assert (w + [rs[k]])[..|sent|] == w[..|sent|];
    if |sent| == |w| {
      assert w[..|sent|] == w && (w + [rs[k]])[..|sent| + 1] == w + [rs[k]];
      AllSentSnoc(w, rs[k]);
    }
  }

  /** The tablet making its requests in turn, going on after the connection has ended. The wire is
      then a prefix of the stream of the wanted requests, in which exactly those reported as sent
      are complete; all of them are, unless the connection ended. */
  method SendRequests(c: Client, rs: seq<Request>) returns (done: nat, ghost sent: seq<Sent>)
    requires c.open && c.connected && c.out.wire == []
    requires forall r :: r in rs ==> Sendable(r)
    modifies c, c.out`wire, c.out`calls
    ensures c.connected == c.open
    ensures Tried(rs, sent) && done <= |sent| && (c.open ==> done == |Wanted(rs)|)
    ensures c.out.wire <= Stream(sent) && CompleteCount(sent, |c.out.wire|) == done
  {
    hide Frame, AsSent, Sendable, Wanted;
    sent, done := [], 0;
    NothingWanted(rs);
    for k := 0 to |rs|
      invariant c.connected == c.open
      invariant Tried(rs[..k], sent) && done <= |sent|
      invariant c.open ==> c.out.wire == Stream(sent) && done == |sent| == |Wanted(rs[..k])|
      invariant c.out.wire <= Stream(sent) && CompleteCount(sent, |c.out.wire|) == done
    {
      assert rs[k] in rs;
      ghost var was, open := sent, c.open;
      TriedMore(rs, k, sent);
      WantedSnoc(rs, k);
      var ok := c.Send(rs[k]);
      if ok {
        done := done + 1;
      }
      if open && rs[k] != Batch([]) {
        sent := sent + [AsSent(rs[k])];
        if ok {
          SentWhole(was, AsSent(rs[k]), c.out.wire);
        } else {
          ghost var n :| 0 <= n < |Frame(AsSent(rs[k]))| && c.out.wire == Stream(was) + Frame(AsSent(rs[k]))[..n];
          SentPart(was, AsSent(rs[k]), c.out.wire, Frame(AsSent(rs[k]))[..n], n);
        }
      }
    }
    assert rs[..|rs|] == rs;
  }

  lemma NothingWanted(rs: seq<Request>)
    ensures Wanted(rs[..0]) == [] && Tried(rs[..0], []) && Stream([]) == [] && CompleteCount([], 0) == 0
  {
  }

  /** The wire after one more frame was sent whole. */
  lemma SentWhole(was: seq<Sent>, s: Sent, wire: seq<byte>)
    requires wire == Stream(was) + Frame(s)
    ensures wire == Stream(was + [s]) && CompleteCount(was + [s], |wire|) == |was + [s]|
  {
    assert |Frame(s)| > 0;
    hide *;
    CutInside(was, s, 0);
    CutAfter(was + [s]);
  }

  lemma CutCount(was: seq<Sent>, s: Sent, k: nat, n: nat)
    requires k < |Frame(s)| && n == |Stream(was)| + k
    ensures CompleteCount(was + [s], n) == |was|
  {
    hide *;
    CutInside(was, s, k);
  }

  /** The wire after one more frame was cut off. */
  lemma SentPart(was: seq<Sent>, s: Sent, wire: seq<byte>, part: seq<byte>, k: nat)
    requires k < |Frame(s)| && part == Frame(s)[..k] && wire == Stream(was) + part
    ensures wire <= Stream(was + [s]) && CompleteCount(was + [s], |wire|) == |was|
  {
    hide *;
    CutInside(was, s, k);
    CutCount(was, s, k, |wire|);
  }

  // ------------------------------------------------------------- what the host makes of it

  /** The main loop's dispatch on a message's type. */
  function Understood(m: Message): Option<Request> {
    if m.kind == MSG_INPUT_BATCH && Sized(m.payload) then Some(Batch(Unpack(m.payload)))
    else if m.kind == MSG_KEYFRAME_REQ then Some(KeyframeRequest)
    else None
  }

  lemma UnderstoodAsMeant(r: Request)
    requires Sendable(r)
    ensures Understood(MessageOf(r)) == Some(r)
  {
    hide PackBatch, Unpack, Sized;
    if r.Batch? { UnpackOfPack(r.events); }
  }

  /** The host understands these messages as these requests, in order. */
  ghost predicate Understands(ms: seq<Message>, rs: seq<Request>) {
    |ms| == |rs| && forall k :: 0 <= k < |ms| ==> Understood(ms[k]) == Some(rs[k])
  }

  /** What such a run leaves on the wire reaches the host as exactly the requests reported as sent,
      event for event. */
  lemma RequestsArrive(rs: seq<Request>, sent: seq<Sent>, wire: seq<byte>, done: nat)
    requires forall r :: r in rs ==> Sendable(r)
    requires Tried(rs, sent) && done <= |sent|
    requires wire <= Stream(sent) && CompleteCount(sent, |wire|) == done
    ensures Understands(Deframe(wire, Host), Wanted(rs)[..done])
  {
    hide Understood, Deframe, Stream, Wanted, Sendable, MessageOf;
    WantedAreRequests(rs);
    var ws := Wanted(rs)[..|sent|];
    forall s | s in sent ensures Framable(s.msg) {
      var k :| 0 <= k < |sent| && sent[k] == s;
      assert ws[k] in Wanted(rs);
      SendableIsFramable(ws[k]);
    }
    SentIsDelivered(sent, wire, done, Host);
    var ms := Deframe(wire, Host);
    forall k | 0 <= k < |ms| ensures Understood(ms[k]) == Some(Wanted(rs)[..done][k]) {
      assert ws[k] in Wanted(rs) && ms[k] == MessageOf(ws[k]);
      UnderstoodAsMeant(ws[k]);
    }
  }

  lemma {:induction false} WantedAreRequests(rs: seq<Request>)
    ensures forall r :: r in Wanted(rs) ==> r in rs
    decreases |rs|
  {
    if rs != [] { WantedAreRequests(rs[..|rs| - 1]); }
  }

  /** Both ends running: the tablet makes its requests, the host polls and drains what came, under
      any short sends and receives and any failure. What the host has read by then are the first of
      the requests the tablet reported as sent; all of those, once the connection is over. */
  method TabletToHost(c: Client, rs: seq<Request>, recvPlan: nat -> nat, polls: seq<bool>)
    returns (got: seq<Message>, done: nat, over: bool)
    requires c.open && c.connected && c.out.wire == []
    requires forall r :: r in rs ==> Sendable(r)
    modifies c, c.out`wire, c.out`calls
    ensures |got| <= done <= |Wanted(rs)| && Understands(got, Wanted(rs)[..|got|])
    ensures over ==> |got| == done
    ensures c.open ==> done == |Wanted(rs)|
  {
    hide Deframe, Wanted, Understood, Sendable;
    ghost var sent;
    done, sent := SendRequests(c, rs);
    RequestsArrive(rs, sent, c.out.wire, done);
    var s := new Socket(c.out.wire, recvPlan, _ => 0);
    var srv := new TcpServer();
    srv.Accept(s);
    assert Remaining(s) == c.out.wire;
    ghost var all := Deframe(c.out.wire, Host);
    got := DrainHost(srv, polls);
    over := srv.client == null;
    assert got <= all;
  }

  /** The protocol's message types, and a request as it stands on the wire. */
  lemma RequestBytes(es: seq<InputEvent>)
    ensures Frame(AsSent(KeyframeRequest)) == Header(4, 0, 0, 0)
    ensures Frame(AsSent(Batch(es))) == Header(5, 0, 0, 4 + 12 * |es|) + PackBatch(es)
  {
    hide Header;
    BatchLength(es);
    assert Header(4, 0, 0, 0) + [] == Header(4, 0, 0, 0);
  }

  /** Every request is wanted but the empty batches, in order. */
  lemma {:induction false} WantedIff(rs: seq<Request>)
    ensures Batch([]) !in Wanted(rs)
    ensures Wanted(rs) == rs <==> Batch([]) !in rs
    ensures forall r :: r in rs && r != Batch([]) ==> r in Wanted(rs)
    ensures |Wanted(rs)| <= |rs|
    decreases |rs|
  {
    if rs != [] {
      var n := |rs| - 1;
      WantedIff(rs[..n]);
      assert rs == rs[..n] + [rs[n]];
      if rs[n] == Batch([]) { assert |Wanted(rs)| < |rs|; }
    }
  }
}
