/** Input batches: packed by the tablet (tablet Protocol.kt), walked and injected by the host
    (host/src/input/inject.cpp). */
module InputBatch {
  import opened Bytes

  datatype InputEvent = InputEvent(
    x: int, y: int, kind: int, buttons: int, pointerId: int, pressure: int, tiltX: int, tiltY: int)

  const MOVE := 0
  const DOWN := 1
  const UP := 2
  const STYLUS_DOWN := 3
  const STYLUS_MOVE := 4
  const STYLUS_UP := 5
  const CANCEL := 6

  const MSG_INPUT_BATCH := 5
  const EVENT_SIZE := 12

  /** The fields fit the wire's types, so that packing loses nothing. */
  predicate Representable(e: InputEvent) {
    && 0 <= e.x < 65536 && 0 <= e.y < 65536
    && 0 <= e.kind < 256 && 0 <= e.buttons < 256 && 0 <= e.pointerId < 256 && 0 <= e.pressure < 256
    && -32768 <= e.tiltX < 32768 && -32768 <= e.tiltY < 32768
  }

  function Small(e: InputEvent): (b: seq<byte>)
    ensures |b| == 4
  {
    [e.kind % 256, e.buttons % 256, e.pointerId % 256, e.pressure % 256]
  }

  function PackEvent(e: InputEvent): (b: seq<byte>)
    ensures |b| == EVENT_SIZE
  {
    U16(e.x) + U16(e.y) + Small(e) + U16(e.tiltX) + U16(e.tiltY)
  }

  function PackEvents(es: seq<InputEvent>): (b: seq<byte>)
    ensures |b| == EVENT_SIZE * |es|
  {
    if es == [] then [] else PackEvent(es[0]) + PackEvents(es[1..])
  }

  function PackBatch(es: seq<InputEvent>): seq<byte> {
    U32(|es|) + PackEvents(es)
  }

  lemma {:induction false} PackEventsSnoc(es: seq<InputEvent>, e: InputEvent)
    ensures PackEvents(es + [e]) == PackEvents(es) + PackEvent(e)
  {
    hide PackEvent;
    if es == [] {
      assert [e][1..] == [];
    } else {
      PackEventsSnoc(es[1..], e);
      assert (es + [e])[1..] == es[1..] + [e];
    }
  }

  /** Writes `bytes` at the cursor of a ByteBuffer and moves it. */
  method Put(buf: array<byte>, pos: nat, bytes: seq<byte>) returns (next: nat)
    requires pos + |bytes| <= buf.Length
    modifies buf
    ensures next == pos + |bytes|
    ensures buf[..next] == old(buf[..pos]) + bytes
  {
    forall k | 0 <= k < |bytes| {
      buf[pos + k] := bytes[k];
    }
    next := pos + |bytes|;
  }

  method PutEvent(buf: array<byte>, start: nat, e: InputEvent) returns (pos: nat)
    requires start + EVENT_SIZE <= buf.Length
    modifies buf
    ensures pos == start + EVENT_SIZE
    ensures buf[..pos] == old(buf[..start]) + PackEvent(e)
  {
    hide U16;
    ghost var before := buf[..start];
    pos := Put(buf, start, U16(e.x));
    pos := Put(buf, pos, U16(e.y));
    pos := Put(buf, pos, [e.kind % 256]);
    pos := Put(buf, pos, [e.buttons % 256]);
    pos := Put(buf, pos, [e.pointerId % 256]);
    pos := Put(buf, pos, [e.pressure % 256]);
    assert buf[..pos] == before + (U16(e.x) + U16(e.y) + Small(e));
    pos := Put(buf, pos, U16(e.tiltX));
    pos := Put(buf, pos, U16(e.tiltY));
  }

  method PackInputBatch(events: seq<InputEvent>) returns (out: seq<byte>)
    ensures out == PackBatch(events)
  {
    hide U32, PackEvent;
    var buf := new byte[4 + |events| * 12](_ => 0);
    var pos := Put(buf, 0, U32(|events|));
    for k := 0 to |events|
      invariant pos == 4 + EVENT_SIZE * k
      invariant buf[..pos] == U32(|events|) + PackEvents(events[..k])
    {
      pos := PutEvent(buf, pos, events[k]);
      PackEventsSnoc(events[..k], events[k]);
      assert events[..k + 1] == events[..k] + [events[k]];
    }
    assert events[..|events|] == events;
    out := buf[..];
    assert out == buf[..pos];
  }

  // ---------------------------------------------------------------- the host's walk

  /** The event at byte `i`, as the host's packed struct reads it. */
  function EventAt(p: seq<byte>, i: nat): InputEvent
    requires i + EVENT_SIZE <= |p|
  {
    InputEvent(ReadU16(p, i), ReadU16(p, i + 2), p[i + 4], p[i + 5], p[i + 6], p[i + 7],
               Signed16(ReadU16(p, i + 8)), Signed16(ReadU16(p, i + 10)))
  }

  function EventsFrom(p: seq<byte>, i: nat, n: nat): (es: seq<InputEvent>)
    requires i + EVENT_SIZE * n <= |p|
    ensures |es| == n
    decreases n
  {
    if n == 0 then [] else [EventAt(p, i)] + EventsFrom(p, i + EVENT_SIZE, n - 1)
  }

  /** The payload holds as many events as it announces; the host's walk stays inside it. */
  predicate Sized(p: seq<byte>) {
    |p| >= 4 && 4 + EVENT_SIZE * ReadU32(p, 0) <= |p|
  }

  function Unpack(p: seq<byte>): seq<InputEvent>
    requires Sized(p)
  {
    EventsFrom(p, 4, ReadU32(p, 0))
  }

  lemma EventAtSlice(p: seq<byte>, i: nat)
    requires i + EVENT_SIZE <= |p|
    ensures EventAt(p, i) == EventAt(p[i..i + EVENT_SIZE], 0)
  {
    var w := p[i..i + EVENT_SIZE];
    assert forall k :: 0 <= k < EVENT_SIZE ==> w[k] == p[i + k];
    hide Signed16;
  }

  lemma WordBack(w: seq<byte>, i: nat, v: int)
    requires i + 2 <= |w| && w[i..i + 2] == U16(v)
    ensures 0 <= v < 65536 ==> ReadU16(w, i) == v
    ensures -32768 <= v < 32768 ==> Signed16(ReadU16(w, i)) == v
  {
    ReadU16OfU16(w, i, v);
    hide U16, ReadU16;
  }

  lemma EventAtOfPack(p: seq<byte>, i: nat, e: InputEvent)
    requires Representable(e)
    requires i + EVENT_SIZE <= |p| && p[i..i + EVENT_SIZE] == PackEvent(e)
    ensures EventAt(p, i) == e
  {
    var w := p[i..i + EVENT_SIZE];
    EventAtSlice(p, i);
    hide U16, ReadU16, Signed16;
    PackedFields(U16(e.x), U16(e.y), Small(e), U16(e.tiltX), U16(e.tiltY));
    WordBack(w, 0, e.x);
    WordBack(w, 2, e.y);
    WordBack(w, 8, e.tiltX);
    WordBack(w, 10, e.tiltY);
  }

  lemma PackedFields(a: seq<byte>, b: seq<byte>, c: seq<byte>, d: seq<byte>, e: seq<byte>)
    requires |a| == |b| == |d| == |e| == 2 && |c| == 4
    ensures var w := a + b + c + d + e;
            && w[0..2] == a && w[2..4] == b && w[8..10] == d && w[10..12] == e
            && w[4] == c[0] && w[5] == c[1] && w[6] == c[2] && w[7] == c[3]
  {
  }

  lemma {:induction false} EventsOfPack(p: seq<byte>, i: nat, es: seq<InputEvent>)
    requires forall e :: e in es ==> Representable(e)
    requires i + EVENT_SIZE * |es| <= |p| && p[i..i + EVENT_SIZE * |es|] == PackEvents(es)
    ensures EventsFrom(p, i, |es|) == es
    decreases |es|
  {
    hide PackEvent, EventAt;
    if es != [] {
      var w, n := p[i..i + EVENT_SIZE * |es|], EVENT_SIZE * |es|;
      assert es[0] in es && forall e :: e in es[1..] ==> e in es;
      assert p[i..i + EVENT_SIZE] == w[..EVENT_SIZE] == PackEvent(es[0]);
      assert p[i + EVENT_SIZE..i + n] == w[EVENT_SIZE..] == PackEvents(es[1..]);
      EventAtOfPack(p, i, es[0]);
      EventsOfPack(p, i + EVENT_SIZE, es[1..]);
    }
  }

  /** Round trip: the host reads back exactly the events that were packed, inside the payload. */
  lemma UnpackOfPack(es: seq<InputEvent>)
    requires |es| < TWO32
    requires forall e :: e in es ==> Representable(e)
    ensures Sized(PackBatch(es)) && Unpack(PackBatch(es)) == es
  {
    hide U32, ReadU32, PackEvents, EventsFrom;
    var p := PackBatch(es);
    assert p[0..4] == U32(|es|) && p[4..4 + EVENT_SIZE * |es|] == PackEvents(es);
    ReadU32OfU32(p, 0, |es|);
    EventsOfPack(p, 4, es);
  }

  /** An out-of-range field is cut to its wire width, not refused: the walk returns the event's
      fields reduced modulo that width. */
  function Reduced(e: InputEvent): InputEvent {
    InputEvent(e.x % 65536, e.y % 65536, e.kind % 256, e.buttons % 256, e.pointerId % 256, e.pressure % 256,
               Signed16(e.tiltX % 65536), Signed16(e.tiltY % 65536))
  }

  lemma ReducedIsIdentityIff(e: InputEvent)
    ensures Representable(Reduced(e))
    ensures Reduced(e) == e <==> Representable(e)
  {
  }

  /** So packing tells two events apart exactly when their reductions differ. */
  lemma PackReduces(e: InputEvent)
    ensures PackEvent(Reduced(e)) == PackEvent(e)
  {
    hide U16, Signed16;
    U16Mod(e.x);
    U16Mod(e.y);
    U16Signed(e.tiltX);
    U16Signed(e.tiltY);
  }

  lemma U16Mod(v: int)
    ensures U16(v % 65536) == U16(v)
  {
    Halves16(v);
    U16Of(v % 256, v / 256 % 256, 0);
  }

  lemma U16Signed(v: int)
    ensures U16(Signed16(v % 65536)) == U16(v)
  {
    U16Mod(v);
    var u := v % 65536;
    if u >= 32768 {
      U16Mod(u - 65536);
      assert (u - 65536) % 65536 == u;
    }
  }

  function ReducedAll(es: seq<InputEvent>): (rs: seq<InputEvent>)
    ensures |rs| == |es|
    ensures forall k :: 0 <= k < |es| ==> rs[k] == Reduced(es[k])
  {
    seq(|es|, k requires 0 <= k < |es| => Reduced(es[k]))
  }

  lemma {:induction false} PackEventsReduces(es: seq<InputEvent>)
    ensures PackEvents(ReducedAll(es)) == PackEvents(es)
    decreases |es|
  {
    hide PackEvent, Reduced;
    if es != [] {
      PackReduces(es[0]);
      PackEventsReduces(es[1..]);
      assert ReducedAll(es)[1..] == ReducedAll(es[1..]);
    }
  }

  /** For every list of events, in range or not: the host reads back each event with its fields
      reduced to their wire widths, and so the events that were packed if and only if all of them
      fit the wire. */
  lemma UnpackOfPackIff(es: seq<InputEvent>)
    requires |es| < TWO32
    ensures Sized(PackBatch(es)) && Unpack(PackBatch(es)) == ReducedAll(es)
    ensures Unpack(PackBatch(es)) == es <==> forall e :: e in es ==> Representable(e)
  {
    hide U32, PackEvents, Unpack, Sized, Reduced, Representable;
    var rs := ReducedAll(es);
    forall e | e in rs ensures Representable(e) {
      var k :| 0 <= k < |rs| && rs[k] == e;
      ReducedIsIdentityIff(es[k]);
    }
    PackEventsReduces(es);
    UnpackOfPack(rs);
    if rs == es {
      assert forall e :: e in es ==> Representable(e);
    } else {
      var k :| 0 <= k < |es| && rs[k] != es[k];
      ReducedIsIdentityIff(es[k]);
      assert es[k] in es;
    }
  }

  // --------------------------------------------------------------- what is on the wire

  /** An event's twelve bytes, in the protocol's order. */
  lemma EventBytes(e: InputEvent)
    ensures PackEvent(e) == [e.x % 256, e.x / 256 % 256, e.y % 256, e.y / 256 % 256,
                             e.kind % 256, e.buttons % 256, e.pointerId % 256, e.pressure % 256,
                             e.tiltX % 256, e.tiltX / 256 % 256, e.tiltY % 256, e.tiltY / 256 % 256]
  {
  }

  /** A batch's bytes: the count, and event k at 4 + 12 k. */
  lemma {:induction false} BatchBytes(es: seq<InputEvent>, k: nat)
    requires k < |es|
    ensures |PackBatch(es)| == 4 + 12 * |es| && PackBatch(es)[..4] == U32(|es|)
    ensures PackBatch(es)[4 + 12 * k..16 + 12 * k] == PackEvent(es[k])
  {
    hide U32, PackEvent;
    EventStandsAt(es, k);
    SliceBehind(U32(|es|), PackEvents(es), 12 * k, 12);
  }

  lemma SliceBehind(a: seq<byte>, b: seq<byte>, i: nat, n: nat)
    requires i + n <= |b|
    ensures (a + b)[|a| + i..|a| + i + n] == b[i..i + n]
  {
  }

  lemma {:induction false} EventStandsAt(es: seq<InputEvent>, k: nat)
    requires k < |es|
    ensures PackEvents(es)[12 * k..12 * k + 12] == PackEvent(es[k])
    decreases k
  {
    hide PackEvent;
    var rest := PackEvents(es[1..]);
    if k > 0 {
      EventStandsAt(es[1..], k - 1);
      SliceBehind(PackEvent(es[0]), rest, 12 * (k - 1), 12);
      assert 12 + 12 * (k - 1) == 12 * k;
    }
  }
}
