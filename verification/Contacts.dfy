/** The tablet's touch handling (tablet InputSender.kt): which contacts are down, and the events
    sent about them. */
module Contacts {
  import opened Reals
  import opened InputBatch

  /** One pointer of a motion event. */
  datatype Pointer = Pointer(
    id: int, stylus: bool, x: real, y: real, pressure: real, orientation: real, tilt: real)

  /** A motion event by its masked action; every other action is ignored. */
  datatype Touch = PointerDown(p: Pointer) | PointersMove(ps: seq<Pointer>) | PointerUp(p: Pointer) | Cancelled | Other

  /** Sizes in pixels: the touched view, and the display the host asked for. */
  datatype Screen = Screen(viewW: int, viewH: int, displayW: nat, displayH: nat)

  function CoerceIn(v: int, lo: int, hi: int): int
    requires lo <= hi
  {
    if v < lo then lo else if v > hi then hi else v
  }

  function CoerceReal(v: real, lo: real, hi: real): real {
    if v < lo then lo else if v > hi then hi else v
  }

  function ViewExtent(v: int): real { if v > 0 then v as real else 1.0 }

  /** How far along the display a position in the view is. */
  function Along(x: real, view: int, display: nat): real {
    x / ViewExtent(view) * display as real
  }

  /** One axis of the mapping. */
  function Place(x: real, view: int, display: nat): int {
    CoerceIn(Truncate(Along(x, view, display)), 0, display)
  }

  function ToEvent(s: Screen, p: Pointer, kind: nat): InputEvent {
    InputEvent(
      Place(p.x, s.viewW, s.displayW),
      Place(p.y, s.viewH, s.displayH),
      kind, 0, p.id,
      Truncate(CoerceReal(p.pressure, 0.0, 1.0) * 255.0),
      if p.stylus then Truncate(p.orientation * 572.9578) else 0,
      if p.stylus then Truncate(p.tilt * 572.9578) else 0)
  }

  function DownEvent(s: Screen, p: Pointer): InputEvent { ToEvent(s, p, if p.stylus then STYLUS_DOWN else DOWN) }
  function MoveEvent(s: Screen, p: Pointer): InputEvent { ToEvent(s, p, if p.stylus then STYLUS_MOVE else MOVE) }
  function UpEvent(s: Screen, p: Pointer): InputEvent { ToEvent(s, p, if p.stylus then STYLUS_UP else UP) }
  function CancelEvent(id: int): InputEvent { InputEvent(0, 0, CANCEL, 0, id, 0, 0, 0) }

  function MoveEvents(s: Screen, active: set<int>, ps: seq<Pointer>): seq<InputEvent> {
    if ps == [] then []
    else MoveEvents(s, active, ps[..|ps| - 1])
         + (if ps[|ps| - 1].id in active then [MoveEvent(s, ps[|ps| - 1])] else [])
  }

  /** The cancel events for these contacts, one each, in whatever order the map yields them. */
  ghost predicate Cancels(events: seq<InputEvent>, ids: set<int>)
    decreases |events|
  {
    if events == [] then ids == {}
    else
      var e := events[|events| - 1];
      e == CancelEvent(e.pointerId) && e.pointerId in ids && Cancels(events[..|events| - 1], ids - {e.pointerId})
  }

  /** What one motion event does: the events sent and the contacts down afterwards. */
  ghost predicate Handles(s: Screen, before: set<int>, t: Touch, events: seq<InputEvent>, after: set<int>) {
    match t
    case PointerDown(p) => events == [DownEvent(s, p)] && after == before + {p.id}
    case PointersMove(ps) => events == MoveEvents(s, before, ps) && after == before
    case PointerUp(p) => events == [UpEvent(s, p)] && after == before - {p.id}
    case Cancelled => Cancels(events, before) && after == {}
    case Other => events == [] && after == before
  }

  /** `order` lists the contacts once each: the order in which the map yields its entries. */
  ghost predicate Lists(order: seq<int>, ids: set<int>)
    decreases |order|
  {
    if order == [] then ids == {}
    else order[|order| - 1] in ids && Lists(order[..|order| - 1], ids - {order[|order| - 1]})
  }

  lemma {:induction false} CancelsOfListing(order: seq<int>, ids: set<int>)
    requires Lists(order, ids)
    ensures Cancels(seq(|order|, k requires 0 <= k < |order| => CancelEvent(order[k])), ids)
    decreases |order|
  {
    if order != [] {
      var n := |order| - 1;
      var es := seq(|order|, k requires 0 <= k < |order| => CancelEvent(order[k]));
      CancelsOfListing(order[..n], ids - {order[n]});
      assert es[..n] == seq(n, k requires 0 <= k < n => CancelEvent(order[..n][k]));
    }
  }

  /** The loop over the map's entries. */
  method CancelAll(order: seq<int>, ghost ids: set<int>) returns (events: seq<InputEvent>)
    requires Lists(order, ids)
    ensures Cancels(events, ids)
  {
    events := [];
    for k := 0 to |order|
      invariant events == seq(k, i requires 0 <= i < k => CancelEvent(order[i]))
    {
      events := events + [CancelEvent(order[k])];
    }
    CancelsOfListing(order, ids);
  }

  class InputSender {
    var activePointers: set<int>

    constructor ()
      ensures activePointers == {}
    {
      activePointers := {};
    }

    method OnTouch(s: Screen, t: Touch, order: seq<int>) returns (events: seq<InputEvent>)
      requires Lists(order, activePointers)
      modifies this
      ensures Handles(s, old(activePointers), t, events, activePointers)
    {
      events := [];
      match t {
        case PointerDown(p) =>
          activePointers := activePointers + {p.id};
          events := [DownEvent(s, p)];
        case PointersMove(ps) =>
          for i := 0 to |ps|
            invariant activePointers == old(activePointers)
            invariant events == MoveEvents(s, activePointers, ps[..i])
          {
            assert ps[..i + 1][..i] == ps[..i];
            if ps[i].id in activePointers {
              events := events + [MoveEvent(s, ps[i])];
            }
          }
          assert ps[..|ps|] == ps;
        case PointerUp(p) =>
          activePointers := activePointers - {p.id};
          events := [UpEvent(s, p)];
        case Cancelled =>
          events := CancelAll(order, activePointers);
          activePointers := {};
        case Other =>
      }
    }
  }

  // ------------------------------------------------------------- replaying the events

  predicate IsDown(e: InputEvent) { e.kind == DOWN || e.kind == STYLUS_DOWN }
  predicate IsMove(e: InputEvent) { e.kind == MOVE || e.kind == STYLUS_MOVE }
  predicate IsEnd(e: InputEvent) { e.kind == UP || e.kind == STYLUS_UP || e.kind == CANCEL }

  /** The contacts a receiver believes open after these events. */
  function Replay(open: set<int>, events: seq<InputEvent>): set<int>
    decreases |events|
  {
    if events == [] then open
    else
      var o, e := Replay(open, events[..|events| - 1]), events[|events| - 1];
      if IsDown(e) then o + {e.pointerId} else if IsEnd(e) then o - {e.pointerId} else o
  }

  /** Every move is about a contact that is open when it is sent. */
  ghost predicate MovesAreOpen(open: set<int>, events: seq<InputEvent>) {
    forall k :: 0 <= k < |events| && IsMove(events[k]) ==> events[k].pointerId in Replay(open, events[..k])
  }

  /** The protocol's rule: between two downs of a contact there is an up or a cancel of it; that
      is, no down is about a contact already open. */
  ghost predicate DownsAreNew(open: set<int>, events: seq<InputEvent>) {
    forall k :: 0 <= k < |events| && IsDown(events[k]) ==> events[k].pointerId !in Replay(open, events[..k])
  }

  lemma {:induction false} ReplayConcat(open: set<int>, a: seq<InputEvent>, b: seq<InputEvent>)
    ensures Replay(open, a + b) == Replay(Replay(open, a), b)
    decreases |b|
  {
    if b == [] {
      assert a + b == a;
    } else {
      assert (a + b)[..|a + b| - 1] == a + b[..|b| - 1];
      ReplayConcat(open, a, b[..|b| - 1]);
    }
  }

  lemma RulesConcat(open: set<int>, a: seq<InputEvent>, b: seq<InputEvent>)
    requires MovesAreOpen(open, a) && MovesAreOpen(Replay(open, a), b)
    ensures MovesAreOpen(open, a + b)
    ensures DownsAreNew(open, a + b) <==> DownsAreNew(open, a) && DownsAreNew(Replay(open, a), b)
  {
    var ab := a + b;
    forall k | 0 <= k < |a| ensures Replay(open, ab[..k]) == Replay(open, a[..k]) && ab[k] == a[k] {
      assert ab[..k] == a[..k];
    }
    forall k | 0 <= k < |b|
      ensures Replay(open, ab[..|a| + k]) == Replay(Replay(open, a), b[..k]) && ab[|a| + k] == b[k]
    {
      assert ab[..|a| + k] == a + b[..k];
      ReplayConcat(open, a, b[..k]);
    }
    forall k | 0 <= k < |ab| && IsMove(ab[k]) ensures ab[k].pointerId in Replay(open, ab[..k]) {
      if k >= |a| { assert ab[|a| + (k - |a|)] == b[k - |a|]; }
    }
    if DownsAreNew(open, a) && DownsAreNew(Replay(open, a), b) {
      forall k | 0 <= k < |ab| && IsDown(ab[k]) ensures ab[k].pointerId !in Replay(open, ab[..k]) {
        if k >= |a| { assert ab[|a| + (k - |a|)] == b[k - |a|]; }
      }
    }
    if DownsAreNew(open, ab) {
      forall k | 0 <= k < |b| && IsDown(b[k]) ensures b[k].pointerId !in Replay(Replay(open, a), b[..k]) {
        assert ab[|a| + k] == b[k];
      }
      forall k | 0 <= k < |a| && IsDown(a[k]) ensures a[k].pointerId !in Replay(open, a[..k]) {
        assert ab[k] == a[k];
      }
    }
  }

  // --------------------------------------------------------------- one motion event

  lemma OneEvent(open: set<int>, e: InputEvent)
    ensures Replay(open, [e])
         == if IsDown(e) then open + {e.pointerId} else if IsEnd(e) then open - {e.pointerId} else open
    ensures MovesAreOpen(open, [e]) <==> (IsMove(e) ==> e.pointerId in open)
    ensures DownsAreNew(open, [e]) <==> (IsDown(e) ==> e.pointerId !in open)
  {
    assert [e][..0] == [];
    assert Replay(open, [e][..0]) == open;
    assert [e][0] == e;
  }

  lemma {:induction false} MovesReplay(s: Screen, active: set<int>, ps: seq<Pointer>)
    ensures var es := MoveEvents(s, active, ps);
            && Replay(active, es) == active && MovesAreOpen(active, es) && DownsAreNew(active, es)
    decreases |ps|
  {
    if ps != [] {
      var n := |ps| - 1;
      var es := MoveEvents(s, active, ps[..n]);
      MovesReplay(s, active, ps[..n]);
      if ps[n].id in active {
        var e := MoveEvent(s, ps[n]);
        OneEvent(active, e);
        ReplayConcat(active, es, [e]);
        RulesConcat(active, es, [e]);
      } else {
        assert es + [] == es;
      }
    }
  }

  lemma {:induction false} CancelsReplay(events: seq<InputEvent>, ids: set<int>, open: set<int>)
    requires Cancels(events, ids) && ids <= open
    ensures Replay(open, events) == open - ids
    ensures MovesAreOpen(open, events) && DownsAreNew(open, events)
    decreases |events|
  {
    if events != [] {
      var es, e := events[..|events| - 1], events[|events| - 1];
      CancelsReplay(es, ids - {e.pointerId}, open);
      OneEvent(Replay(open, es), e);
      RulesConcat(open, es, [e]);
      assert es + [e] == events;
    }
  }

  /** One motion event: replaying what it sent tracks the pointer map; its moves are about open
      contacts; and it breaks the rule exactly when it is a down of a pointer that is down. */
  lemma HandledReplay(s: Screen, before: set<int>, t: Touch, events: seq<InputEvent>, after: set<int>)
    requires Handles(s, before, t, events, after)
    ensures Replay(before, events) == after
    ensures MovesAreOpen(before, events)
    ensures DownsAreNew(before, events) <==> !(t.PointerDown? && t.p.id in before)
  {
    match t {
      case PointerDown(p) => OneEvent(before, DownEvent(s, p));
      case PointersMove(ps) => MovesReplay(s, before, ps);
      case PointerUp(p) => OneEvent(before, UpEvent(s, p));
      case Cancelled => CancelsReplay(events, before, before);
      case Other =>
    }
  }

  // --------------------------------------------------------------- whole sessions

  function Flat(batches: seq<seq<InputEvent>>): seq<InputEvent> {
    if batches == [] then [] else Flat(batches[..|batches| - 1]) + batches[|batches| - 1]
  }

  /** A session: `maps[k]` is the pointer map before touch k, `batches[k]` what that touch sent. */
  ghost predicate Session(ss: seq<Screen>, ts: seq<Touch>, batches: seq<seq<InputEvent>>, maps: seq<set<int>>) {
    && |ss| == |ts| == |batches| && |maps| == |ts| + 1
    && maps[0] == {}
    && forall k :: 0 <= k < |ts| ==> Handles(ss[k], maps[k], ts[k], batches[k], maps[k + 1])
  }

  /** The touch source never reports a down of a pointer that is down. */
  ghost predicate NeverReDowns(ts: seq<Touch>, maps: seq<set<int>>)
    requires |maps| == |ts| + 1
  {
    forall k :: 0 <= k < |ts| ==> !(ts[k].PointerDown? && ts[k].p.id in maps[k])
  }

  lemma SessionStart()
    ensures Replay({}, []) == {} && MovesAreOpen({}, []) && DownsAreNew({}, [])
    ensures forall maps: seq<set<int>> :: |maps| == 1 ==> NeverReDowns([], maps)
  {
  }

  lemma NeverReDownsSnoc(ts: seq<Touch>, maps: seq<set<int>>)
    requires ts != [] && |maps| == |ts| + 1
    ensures var n := |ts| - 1;
            NeverReDowns(ts, maps) <==>
            NeverReDowns(ts[..n], maps[..n + 1]) && !(ts[n].PointerDown? && ts[n].p.id in maps[n])
  {
    var n := |ts| - 1;
    if NeverReDowns(ts, maps) {
      forall k | 0 <= k < n ensures !(ts[..n][k].PointerDown? && ts[..n][k].p.id in maps[..n + 1][k]) {
        assert ts[..n][k] == ts[k];
      }
    }
  }

  /** Over every session: the pointer map is exactly the set of contacts that replaying everything
      sent leaves open; every move sent is about an open contact; and what was sent obeys the
      protocol's down rule exactly when the touch source never re-downs an active pointer. */
  lemma {:induction false} SessionTracksContacts(
    ss: seq<Screen>, ts: seq<Touch>, batches: seq<seq<InputEvent>>, maps: seq<set<int>>)
    requires Session(ss, ts, batches, maps)
    ensures Replay({}, Flat(batches)) == maps[|ts|]
    ensures MovesAreOpen({}, Flat(batches))
    ensures DownsAreNew({}, Flat(batches)) <==> NeverReDowns(ts, maps)
    decreases |ts|
  {
    hide Handles, NeverReDowns, MovesAreOpen, DownsAreNew, Replay;
    SessionStart();
    if ts != [] {
      var n := |ts| - 1;
      assert Session(ss[..n], ts[..n], batches[..n], maps[..n + 1]);
      SessionTracksContacts(ss[..n], ts[..n], batches[..n], maps[..n + 1]);
      var sent := Flat(batches[..n]);
      HandledReplay(ss[n], maps[n], ts[n], batches[n], maps[n + 1]);
      ReplayConcat({}, sent, batches[n]);
      RulesConcat({}, sent, batches[n]);
      NeverReDownsSnoc(ts, maps);
    }
  }

  /** After a cancel no contact is open, on the tablet or in the replay. */
  lemma NothingOpenAfterCancel(ss: seq<Screen>, ts: seq<Touch>, batches: seq<seq<InputEvent>>, maps: seq<set<int>>)
    requires Session(ss, ts, batches, maps) && ts != [] && ts[|ts| - 1].Cancelled?
    ensures Replay({}, Flat(batches)) == {} && maps[|ts|] == {}
  {
    SessionTracksContacts(ss, ts, batches, maps);
  }

  // ------------------------------------------------------------- events fit the wire

  /** Angles within what the platform reports: orientation in -pi..pi, tilt in 0..pi/2. */
  predicate PlausibleAngles(p: Pointer) {
    -3.1416 <= p.orientation <= 3.1416 && 0.0 <= p.tilt <= 1.5708
  }

  /** Whatever the touch position and pressure, an event's fields lie within the display and the
      wire's field widths, so that packing loses nothing. */
  lemma EventsFitTheWire(s: Screen, p: Pointer, kind: nat)
    requires s.displayW < 65536 && s.displayH < 65536 && 0 <= p.id < 256 && kind < 256 && PlausibleAngles(p)
    ensures var e := ToEvent(s, p, kind);
            && Representable(e) && 0 <= e.x <= s.displayW && 0 <= e.y <= s.displayH
            && -1800 <= e.tiltX <= 1800 && 0 <= e.tiltY <= 900
  {
    var f := CoerceReal(p.pressure, 0.0, 1.0);
    TruncateMonotone(0.0, f * 255.0);
    TruncateMonotone(f * 255.0, 255.0);
    TruncateMonotone(-1800.9, p.orientation * 572.9578);
    TruncateMonotone(p.orientation * 572.9578, 1800.9);
    TruncateMonotone(0.0, p.tilt * 572.9578);
    TruncateMonotone(p.tilt * 572.9578, 900.9);
  }

  lemma ScaledWithin(x: real, extent: real, size: real)
    requires 0.0 <= x <= extent && extent > 0.0 && size >= 0.0
    ensures 0.0 <= x / extent * size <= size
    ensures x / extent * size == x * size / extent
  {
    var q := x / extent;
    assert 0.0 <= q <= 1.0;
    assert q * extent == x;
    assert (1.0 - q) * size >= 0.0;
    assert q * size * extent == x * size;
  }

  /** Pixel v of `display` is where x falls when `view` is scaled to it, rounded down. */
  ghost predicate InProportion(v: int, x: real, view: int, display: nat)
    requires view > 0
  {
    v as real <= x * display as real / view as real < v as real + 1.0
  }

  lemma PlaceInProportion(x: real, view: int, display: nat)
    requires view > 0 && 0.0 <= x <= view as real
    ensures InProportion(Place(x, view, display), x, view, display)
  {
    ScaledWithin(x, view as real, display as real);
    var v := x / view as real * display as real;
    TruncateMonotone(v, display as real);
  }

  /** A touch inside the view lands on the display pixel at the same proportion of the way
      across, rounded down, and likewise down the screen. */
  lemma TouchLandsInProportion(s: Screen, p: Pointer, kind: nat)
    requires s.viewW > 0 && s.viewH > 0
    requires 0.0 <= p.x <= s.viewW as real && 0.0 <= p.y <= s.viewH as real
    ensures var e := ToEvent(s, p, kind);
            InProportion(e.x, p.x, s.viewW, s.displayW) && InProportion(e.y, p.y, s.viewH, s.displayH)
  {
    PlaceInProportion(p.x, s.viewW, s.displayW);
    PlaceInProportion(p.y, s.viewH, s.displayH);
    hide Place, InProportion;
  }

  // ------------------------------------------------------- contacts, by what was touched

  predicate DownOf(t: Touch, id: int) { t.PointerDown? && t.p.id == id }

  predicate EndOf(t: Touch, id: int) { t.Cancelled? || (t.PointerUp? && t.p.id == id) }

  /** A contact went down at some touch, and has neither gone up nor been cancelled since. */
  ghost predicate StillDown(ts: seq<Touch>, id: int) {
    exists k :: 0 <= k < |ts| && DownOf(ts[k], id) && forall j :: k < j < |ts| ==> !EndOf(ts[j], id)
  }

  lemma StillDownSnoc(ts: seq<Touch>, t: Touch, id: int)
    ensures StillDown(ts + [t], id) <==> DownOf(t, id) || (StillDown(ts, id) && !EndOf(t, id))
  {
    var all := ts + [t];
    if DownOf(t, id) { assert all[|ts|] == t; }
    if StillDown(ts, id) && !EndOf(t, id) {
      var k :| 0 <= k < |ts| && DownOf(ts[k], id) && forall j :: k < j < |ts| ==> !EndOf(ts[j], id);
      assert DownOf(all[k], id) && forall j :: k < j < |all| ==> !EndOf(all[j], id);
    }
    if StillDown(all, id) && !DownOf(t, id) {
      var k :| 0 <= k < |all| && DownOf(all[k], id) && forall j :: k < j < |all| ==> !EndOf(all[j], id);
      assert k < |ts| && DownOf(ts[k], id);
      assert all[|ts|] == t;
      forall j | k < j < |ts| ensures !EndOf(ts[j], id) { assert all[j] == ts[j]; }
    }
  }

  /** Over every session a contact is in the pointer map, and so open to a receiver that replays what
      was sent, if and only if it went down and has neither gone up nor been cancelled since. */
  lemma {:induction false} ContactOpenIff(
    ss: seq<Screen>, ts: seq<Touch>, batches: seq<seq<InputEvent>>, maps: seq<set<int>>, id: int)
    requires Session(ss, ts, batches, maps)
    ensures id in maps[|ts|] <==> StillDown(ts, id)
    ensures id in Replay({}, Flat(batches)) <==> StillDown(ts, id)
    decreases |ts|
  {
    hide StillDown, Replay;
    SessionTracksContacts(ss, ts, batches, maps);
    if ts != [] {
      var n := |ts| - 1;
      assert Session(ss[..n], ts[..n], batches[..n], maps[..n + 1]);
      ContactOpenIff(ss[..n], ts[..n], batches[..n], maps[..n + 1], id);
      StillDownSnoc(ts[..n], ts[n], id);
      assert ts[..n] + [ts[n]] == ts;
      assert Handles(ss[n], maps[n], ts[n], batches[n], maps[n + 1]);
    } else {
      NoneDown(id);
    }
  }

  lemma NoneDown(id: int)
    ensures !StillDown([], id)
  {
  }

  // --------------------------------------------------------- what is said of a contact

  /** The kind of event for a pointer: one for a finger, another for a stylus. */
  function KindFor(p: Pointer, finger: int, stylus: int): int { if p.stylus then stylus else finger }

  /** An event about a pointer, apart from its place. */
  ghost predicate Reports(e: InputEvent, p: Pointer, kind: int) {
    && e.kind == kind && e.pointerId == p.id && e.buttons == 0
    && (p.pressure <= 0.0 ==> e.pressure == 0) && (p.pressure >= 1.0 ==> e.pressure == 255)
    && (0.0 <= p.pressure <= 1.0 ==> e.pressure as real <= 255.0 * p.pressure < e.pressure as real + 1.0)
    && (p.stylus ==> TowardsZeroOf(e.tiltX, 572.9578 * p.orientation) && TowardsZeroOf(e.tiltY, 572.9578 * p.tilt))
    && (!p.stylus ==> e.tiltX == 0 && e.tiltY == 0)
  }

  /** v is r without its fraction. */
  ghost predicate TowardsZeroOf(v: int, r: real) {
    if r >= 0.0 then v as real <= r < v as real + 1.0 else v as real - 1.0 < r <= v as real
  }

  lemma EventReports(s: Screen, p: Pointer, kind: nat)
    ensures Reports(ToEvent(s, p, kind), p, kind)
    ensures ToEvent(s, p, kind).x == Place(p.x, s.viewW, s.displayW)
    ensures ToEvent(s, p, kind).y == Place(p.y, s.viewH, s.displayH)
  {
    hide Place;
  }

  function ActiveAmong(active: set<int>, ps: seq<Pointer>): nat {
    if ps == [] then 0 else ActiveAmong(active, ps[..|ps| - 1]) + (if ps[|ps| - 1].id in active then 1 else 0)
  }

  lemma {:induction false} MovesReport(s: Screen, active: set<int>, ps: seq<Pointer>, k: nat)
    requires k <= |ps|
    ensures |MoveEvents(s, active, ps)| == ActiveAmong(active, ps) >= ActiveAmong(active, ps[..k])
    ensures k < |ps| && ps[k].id in active ==>
              var i := ActiveAmong(active, ps[..k]); var es := MoveEvents(s, active, ps);
              i < |es| && es[i] == ToEvent(s, ps[k], KindFor(ps[k], 0, 4))
    decreases |ps|
  {
    hide ToEvent;
    if ps != [] {
      var n := |ps| - 1;
      if k < n {
        MovesReport(s, active, ps[..n], k);
        assert ps[..n][..k] == ps[..k];
      } else {
        MovesReport(s, active, ps[..n], n);
        assert ps[..n][..n] == ps[..n];
        assert k == |ps| ==> ps[..k] == ps;
      }
    }
  }

  lemma {:induction false} CancelsAre(events: seq<InputEvent>, ids: set<int>)
    requires Cancels(events, ids)
    ensures |events| == |ids|
    ensures forall e :: e in events ==> e == InputEvent(0, 0, 6, 0, e.pointerId, 0, 0, 0) && e.pointerId in ids
    ensures forall id :: id in ids ==> InputEvent(0, 0, 6, 0, id, 0, 0, 0) in events
    decreases |events|
  {
    if events != [] {
      var n := |events| - 1;
      CancelsAre(events[..n], ids - {events[n].pointerId});
      assert events == events[..n] + [events[n]];
    }
  }

  /** What each motion event sends, kind by kind: a down or an up is one event about its pointer; a
      move is one event, in order, about every pointer that is down and none about others; a
      cancel is one about every contact, with no place; anything else is nothing. */
  lemma TouchSends(s: Screen, before: set<int>, t: Touch, events: seq<InputEvent>, after: set<int>, k: nat)
    requires Handles(s, before, t, events, after)
    ensures t.PointerDown? ==> |events| == 1 && Reports(events[0], t.p, KindFor(t.p, 1, 3))
    ensures t.PointerUp? ==> |events| == 1 && Reports(events[0], t.p, KindFor(t.p, 2, 5))
    ensures t.PointersMove? ==> |events| == ActiveAmong(before, t.ps)
    ensures t.PointersMove? && k < |t.ps| && t.ps[k].id in before ==>
              var i := ActiveAmong(before, t.ps[..k]);
              i < |events| && Reports(events[i], t.ps[k], KindFor(t.ps[k], 0, 4))
    ensures t.Cancelled? ==>
              && |events| == |before|
              && forall id :: id in before ==> InputEvent(0, 0, 6, 0, id, 0, 0, 0) in events
    ensures t.Other? ==> events == []
  {
    hide Reports, ToEvent;
    match t {
      case PointerDown(p) => EventReports(s, p, KindFor(p, 1, 3));
      case PointerUp(p) => EventReports(s, p, KindFor(p, 2, 5));
      case PointersMove(ps) =>
        MovesReport(s, before, ps, if k <= |ps| then k else 0);
        if k < |ps| { EventReports(s, ps[k], KindFor(ps[k], 0, 4)); }
      case Cancelled => CancelsAre(events, before);
      case Other =>
    }
  }
}
