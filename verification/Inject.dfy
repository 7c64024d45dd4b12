/** Turning decoded input events into Windows input (host/src/input/inject.cpp). */
module Inject {
  import opened Bytes
  import opened Reals
  import opened InputBatch
  import opened Contacts

  /** The host's geometry: where the captured monitor lies; the virtual screen, which holds all
      monitors; and the size of the primary monitor, which lies at the origin. */
  datatype Desktop = Desktop(
    offsetX: int, offsetY: int, vsX: int, vsY: int, vsW: int, vsH: int, primW: int, primH: int)

  datatype Button = Left | Right | Middle

  /** What reaches the system: an absolute mouse move with button changes, a pen or touch contact
      in monitor pixels, or nothing. */
  datatype Injection =
    | Mouse(x: int, y: int, released: bool, buttons: set<Button>)
    | Pen(x: int, y: int, kind: int, pressure: int, tiltX: int, tiltY: int)
    | TouchPoint(x: int, y: int, kind: int, contact: int)
    | Nothing

  /** Normalising pixel p of a virtual screen of w pixels. */
  function Normalise(p: int, w: int): int
    requires w > 0
  {
    Truncate(p as real * 65536.0 / w as real) + 1
  }

  function Buttons(b: int): set<Button> {
    (if b % 2 == 1 then {Left} else {}) + (if b / 2 % 2 == 1 then {Right} else {}) + (if b / 4 % 2 == 1 then {Middle} else {})
  }

  function InjectMouse(d: Desktop, e: InputEvent): Injection {
    if d.vsW <= 0 || d.vsH <= 0 then Nothing
    else Mouse(Normalise(d.offsetX + e.x - d.vsX, d.vsW), Normalise(d.offsetY + e.y - d.vsY, d.vsH),
               e.kind == UP, Buttons(e.buttons))
  }

  /** Integer division of a tilt towards zero. */
  function TowardsZero(v: int, d: int): int
    requires d > 0
  {
    if v >= 0 then v / d else -(-v / d)
  }

  function InjectPen(d: Desktop, x: int, y: int, kind: int, pressure: int, tiltX: int, tiltY: int): Injection {
    Pen(d.offsetX + x, d.offsetY + y, kind, pressure * 1024 / 255, TowardsZero(tiltX, 10), TowardsZero(tiltY, 10))
  }

  function InjectTouch(d: Desktop, touchOk: bool, x: int, y: int, kind: int, id: int): Injection {
    if touchOk then TouchPoint(d.offsetX + x, d.offsetY + y, kind, id % 16) else Nothing
  }

  /** Where one event goes. */
  function Route(d: Desktop, penOk: bool, touchOk: bool, e: InputEvent): Injection {
    if e.kind == DOWN || e.kind == MOVE || e.kind == UP then InjectMouse(d, e)
    else if e.kind == STYLUS_DOWN || e.kind == STYLUS_MOVE || e.kind == STYLUS_UP || e.kind == CANCEL then
      if penOk && e.kind != CANCEL then InjectPen(d, e.x, e.y, e.kind, e.pressure, e.tiltX, e.tiltY)
      else if penOk then InjectPen(d, 0, 0, e.kind, 0, 0, 0)
      else InjectTouch(d, touchOk, e.x, e.y, e.kind, e.pointerId)
    else Nothing
  }

  function RouteAll(d: Desktop, penOk: bool, touchOk: bool, es: seq<InputEvent>): (r: seq<Injection>)
    ensures |r| == |es|
    ensures forall k :: 0 <= k < |es| ==> r[k] == Route(d, penOk, touchOk, es[k])
  {
    seq(|es|, k requires 0 <= k < |es| => Route(d, penOk, touchOk, es[k]))
  }

  lemma EventsFromAt(p: seq<byte>, i: nat, n: nat, k: nat)
    requires i + EVENT_SIZE * n <= |p| && k < n
    ensures EventsFrom(p, i, n)[k] == EventAt(p, i + EVENT_SIZE * k)
    decreases k
  {
    if k > 0 { EventsFromAt(p, i + EVENT_SIZE, n - 1, k - 1); }
  }

  /** How many of the announced events the payload holds. */
  function Held(batch: seq<byte>): (n: nat)
    requires |batch| >= 4
    ensures 4 + EVENT_SIZE * n <= |batch|
  {
    if Sized(batch) then ReadU32(batch, 0) else (|batch| - 4) / EVENT_SIZE
  }

  /** InjectBatch: a pointer walks over the events the batch announces. The caller has made sure of
      the count only: if and only if the payload is shorter than announced, the walk leaves it,
      behind the last event it holds; what the source would read from there on is not `inside`. */
  method InjectBatch(d: Desktop, penOk: bool, touchOk: bool, batch: seq<byte>) returns (out: seq<Injection>, inside: bool)
    requires |batch| >= 4
    ensures inside <==> 4 + 12 * ReadU32(batch, 0) <= |batch|
    ensures out == RouteAll(d, penOk, touchOk, EventsFrom(batch, 4, Held(batch)))
  {
    hide EventAt, Route, ReadU32;
    var count := ReadU32(batch, 0);
    var ev, i := 4, 0;
    ghost var n := Held(batch);
    out := [];
    while i < count
      invariant i <= count && ev == 4 + EVENT_SIZE * i && ev <= |batch|
      invariant i <= n
      invariant |out| == i && forall k :: 0 <= k < i ==> out[k] == Route(d, penOk, touchOk, EventsFrom(batch, 4, n)[k])
      decreases count - i
    {
      if ev + EVENT_SIZE > |batch| {
        return out, false;
      }
      EventsFromAt(batch, 4, n, i);
      out := out + [Route(d, penOk, touchOk, EventAt(batch, ev))];
      ev := ev + EVENT_SIZE;
      i := i + 1;
    }
    inside := true;
  }

  // ------------------------------------------------------------ pixels and their bands

  lemma ScaleFloor(p: nat, w: nat)
    requires w > 0
    ensures Truncate(p as real * 65536.0 / w as real) == p * 65536 / w
  {
    var q, r := p * 65536 / w, p * 65536 % w;
    assert p * 65536 == q * w + r;
    var v := p as real * 65536.0 / w as real;
    assert v == q as real + r as real / w as real;
    assert 0.0 <= r as real / w as real < 1.0;
  }

  /** The pixel a normalised coordinate means on a surface of w pixels: floor(norm * w / 65536). */
  function PixelOf(norm: nat, w: nat): nat {
    norm * w / 65536
  }

  lemma QuotientBounds(n: nat, w: nat, q: nat)
    requires w > 0 && q == n / w
    ensures q * w <= n < q * w + w
  {
  }

  lemma MulOrder(a: nat, b: nat, w: nat)
    requires w > 0
    ensures a * w < b * w <==> a < b
  {
    if a < b {
      MulPositive(b - a, w);
      assert b * w == a * w + (b - a) * w;
    } else {
      MulPositive(a - b, w);
      assert a * w == b * w + (a - b) * w;
    }
  }

  lemma MulPositive(a: nat, w: nat)
    requires w > 0
    ensures a * w >= 0 && (a > 0 ==> a * w > 0)
  {
  }

  lemma DivIs(n: nat, d: nat, q: nat)
    requires d > 0 && q * d <= n < q * d + d
    ensures n / d == q
  {
    var m := n / d;
    QuotientBounds(n, d, m);
    MulOrder(m, q + 1, d);
    MulOrder(q, m + 1, d);
    assert (m + 1) * d == m * d + d && (q + 1) * d == q * d + d;
  }

  /** For a virtual screen of at most 65535 pixels the normalised coordinate of pixel p lies
      in 1..65535 and strictly inside p's own band, and so means pixel p on a surface of that width. */
  lemma PixelRoundTrip(p: nat, w: nat)
    requires p < w <= 65535
    ensures 1 <= Normalise(p, w) <= 65535
    ensures 65536 * p < Normalise(p, w) * w < 65536 * (p + 1)
    ensures PixelOf(Normalise(p, w), w) == p
  {
    ScaleFloor(p, w);
    var q := p * 65536 / w;
    QuotientBounds(p * 65536, w, q);
    var n := q + 1;
    assert n * w == q * w + w;
    assert 65536 * p < n * w < 65536 * p + 65536;
    DivIs(n * w, 65536, p);
    MulOrder(n, 65536, w);
  }

  /** Neighbouring pixels stay apart. */
  lemma NormaliseIncreases(p: nat, p': nat, w: nat)
    requires p < p' < w <= 65535
    ensures Normalise(p, w) < Normalise(p', w)
  {
    PixelRoundTrip(p, w);
    PixelRoundTrip(p', w);
    var a, b := Normalise(p, w), Normalise(p', w);
    MulOrder(a, b, w);
  }

  /** The limit is sharp: every pixel is found again exactly when the screen has at most 65535. */
  lemma AllPixelsRoundTripIff(w: nat)
    requires w > 0
    ensures (forall p: nat :: p < w ==> PixelOf(Normalise(p, w), w) == p) <==> w <= 65535
  {
    if w <= 65535 {
      forall p: nat | p < w ensures PixelOf(Normalise(p, w), w) == p { PixelRoundTrip(p, w); }
    } else {
      var p := w - 1;
      ScaleFloor(p, w);
      assert p * 65536 == 65535 * w + (w - 65536);
      DivIs(p * 65536, w, 65535);
      assert Normalise(p, w) == 65536;
      DivIs(65536 * w, 65536, w);
      assert PixelOf(Normalise(p, w), w) != p;
    }
  }

  // ------------------------------------------------------------ where the cursor goes

  /** Monitors as the system lays them out: the primary at the origin, inside a virtual screen of
      at most 65535 pixels each way. */
  ghost predicate LaidOut(d: Desktop) {
    && 0 < d.primW && d.vsX <= 0 && d.primW <= d.vsX + d.vsW && d.vsW <= 65535
    && 0 < d.primH && d.vsY <= 0 && d.primH <= d.vsY + d.vsH && d.vsH <= 65535
  }

  ghost predicate OnScreen(d: Desktop, x: int, y: int) {
    0 <= x - d.vsX < d.vsW && 0 <= y - d.vsY < d.vsH
  }

  /** The primary monitor is all there is. */
  ghost predicate OnlyMonitor(d: Desktop) {
    d.vsX == 0 && d.vsY == 0 && d.vsW == d.primW && d.vsH == d.primH
  }

  predicate IsMouse(e: InputEvent) { e.kind == DOWN || e.kind == MOVE || e.kind == UP }

  /** The pixel the system moves the cursor to. The source asks for an absolute move without
      MOUSEEVENTF_VIRTUALDESK, so the coordinates, which range over 0..65535, are taken over the
      primary monitor. */
  ghost predicate CursorAt(d: Desktop, i: Injection, x: int, y: int) {
    && i.Mouse? && 0 <= i.x <= 65535 && 0 <= i.y <= 65535 && d.primW > 0 && d.primH > 0
    && PixelOf(i.x, d.primW) == x && PixelOf(i.y, d.primH) == y
  }

  ghost predicate OnPrimary(d: Desktop, x: int, y: int) {
    0 <= x < d.primW && 0 <= y < d.primH
  }

  /** One axis: whatever pixel of the virtual screen is named, it is one of the primary monitor's
      that is reached. */
  lemma PrimaryReached(p: nat, w: nat, prim: nat)
    requires p < w <= 65535 && 0 < prim
    ensures 1 <= Normalise(p, w) <= 65535 && PixelOf(Normalise(p, w), prim) < prim
  {
    PixelRoundTrip(p, w);
    var n := Normalise(p, w);
    MulOrder(n, 65536, prim);
    QuotientBounds(n * prim, 65536, n * prim / 65536);
  }

  /** One axis: with another monitor that makes the virtual screen at least four pixels larger
      than the primary, the first or the last pixel of the primary is not reached by naming it. */
  lemma FirstOrLastMissed(vs: int, w: nat, prim: nat)
    requires 4 <= prim && prim + 4 <= w <= 65535 && vs <= 0 && prim <= vs + w
    ensures PixelOf(Normalise(0 - vs, w), prim) != 0 || PixelOf(Normalise(prim - 1 - vs, w), prim) != prim - 1
  {
    var a: nat := -vs;
    PixelRoundTrip(a, w);
    PixelRoundTrip(prim - 1 + a, w);
    var m, n := Normalise(a, w), Normalise(prim - 1 + a, w);
    if m * prim / 65536 == 0 && n * prim / 65536 == prim - 1 {
      hide Normalise, PixelOf;
      QuotientBounds(m * prim, 65536, 0);
      QuotientBounds(n * prim, 65536, prim - 1);
      FirstReached(a, w, prim, m);
      LastReached(a, w, prim, n);
      NotBoth(a, w, prim);
    }
  }

  lemma NotBoth(a: nat, w: nat, prim: nat)
    requires a * prim < w && 4 <= prim && prim + 4 <= w
    ensures prim * prim + a * prim < (prim - 1) * w
  {
    var f := prim - 2;
    MulMonotone(f, prim + 4, w);
    assert f * (prim + 4) == prim * prim + 2 * prim - 8;
    assert (prim - 1) * w == f * w + w;
  }

  lemma MulMonotone(f: nat, a: nat, b: nat)
    requires a <= b
    ensures f * a <= f * b
  {
  }

  lemma FirstReached(a: nat, w: nat, prim: nat, m: nat)
    requires 65536 * a < m * w && m * prim < 65536 && prim > 0 && w > 0
    ensures a * prim < w
  {
    MulOrder(65536 * a, m * w, prim);
    MulOrder(m * prim, 65536, w);
    assert m * w * prim == m * prim * w;
    assert 65536 * a * prim == 65536 * (a * prim);
  }

  lemma LastReached(a: nat, w: nat, prim: nat, n: nat)
    requires n * w < 65536 * (prim + a) && 65536 * (prim - 1) <= n * prim && prim > 0 && w > 0
    ensures (prim - 1) * w < prim * prim + a * prim
  {
    MulOrder(n * w, 65536 * (prim + a), prim);
    MulMonotone(w, 65536 * (prim - 1), n * prim);
    assert n * w * prim == w * (n * prim);
    assert 65536 * (prim + a) * prim == 65536 * (prim * prim + a * prim);
    assert w * (65536 * (prim - 1)) == 65536 * ((prim - 1) * w);
  }

  /** A mouse event that names a pixel of the virtual screen moves the cursor to a pixel of the
      primary monitor: the one it names, if there is no other monitor. */
  lemma MouseMovesCursor(d: Desktop, e: InputEvent) returns (x: int, y: int)
    requires LaidOut(d) && OnScreen(d, d.offsetX + e.x, d.offsetY + e.y)
    ensures CursorAt(d, InjectMouse(d, e), x, y) && OnPrimary(d, x, y)
    ensures OnlyMonitor(d) ==> x == d.offsetX + e.x && y == d.offsetY + e.y
  {
    var i, j := d.offsetX + e.x - d.vsX, d.offsetY + e.y - d.vsY;
    PrimaryReached(i, d.vsW, d.primW);
    PrimaryReached(j, d.vsH, d.primH);
    PixelRoundTrip(i, d.vsW);
    PixelRoundTrip(j, d.vsH);
    x, y := PixelOf(Normalise(i, d.vsW), d.primW), PixelOf(Normalise(j, d.vsH), d.primH);
  }

  /** From packed batch to cursor: every mouse event of a batch the tablet packed that names a pixel
      of the virtual screen moves the cursor, in order, to a pixel of the primary monitor; to the
      very pixel it names, if there is no other monitor. */
  lemma BatchMovesCursor(d: Desktop, penOk: bool, touchOk: bool, es: seq<InputEvent>, k: nat)
    requires |es| < TWO32 && forall e :: e in es ==> Representable(e)
    requires LaidOut(d) && k < |es| && IsMouse(es[k]) && OnScreen(d, d.offsetX + es[k].x, d.offsetY + es[k].y)
    ensures Sized(PackBatch(es))
    ensures var out := RouteAll(d, penOk, touchOk, Unpack(PackBatch(es)));
            && |out| == |es|
            && (exists x, y :: CursorAt(d, out[k], x, y) && OnPrimary(d, x, y))
            && (OnlyMonitor(d) ==> CursorAt(d, out[k], d.offsetX + es[k].x, d.offsetY + es[k].y))
  {
    UnpackOfPack(es);
    hide Unpack, PackBatch, CursorAt, OnPrimary, InjectMouse;
    var x, y := MouseMovesCursor(d, es[k]);
  }

  /** The host shows a monitor of the size it told the tablet, wholly on the virtual screen. */
  ghost predicate Shows(d: Desktop, s: Screen) {
    && 0 < s.displayW && 0 < s.displayH
    && d.vsX <= d.offsetX && d.offsetX + s.displayW <= d.vsX + d.vsW
    && d.vsY <= d.offsetY && d.offsetY + s.displayH <= d.vsY + d.vsH
  }

  ghost predicate ShowsPrimary(d: Desktop, s: Screen) {
    d.offsetX == 0 && d.offsetY == 0 && s.displayW == d.primW && s.displayH == d.primH
  }

  /** The monitor shown is another than the primary: they have no pixel in common. */
  ghost predicate ShowsOther(d: Desktop, s: Screen) {
    || d.offsetX + s.displayW <= 0 || d.primW <= d.offsetX
    || d.offsetY + s.displayH <= 0 || d.primH <= d.offsetY
  }

  ghost predicate OnMonitor(d: Desktop, s: Screen, x: int, y: int) {
    d.offsetX <= x < d.offsetX + s.displayW && d.offsetY <= y < d.offsetY + s.displayH
  }

  lemma AlongBelow(x: real, view: int, display: nat)
    requires display > 0
    ensures Along(x, view, display) < display as real <==> x < ViewExtent(view)
  {
    var v, n := ViewExtent(view), display as real;
    var q := x / v;
    assert q * v == x;
    PositiveScale(1.0 - q, v);
    PositiveScale(1.0 - q, n);
    assert (1.0 - q) * v == v - x;
    assert (1.0 - q) * n == n - q * n;
  }

  lemma PlaceInsideIff(x: real, view: int, display: nat)
    requires display > 0
    ensures 0 <= Place(x, view, display) <= display
    ensures Place(x, view, display) < display <==> x < ViewExtent(view)
    ensures ViewExtent(view) == if view > 0 then view as real else 1.0
  {
    hide Along, Truncate;
    AlongBelow(x, view, display);
    TruncateBelow(Along(x, view, display), display);
  }

  lemma PositiveScale(a: real, b: real)
    requires b > 0.0
    ensures a * b > 0.0 <==> a > 0.0
  {
    if a <= 0.0 { assert -a * b >= 0.0; }
  }

  lemma TruncateBelow(v: real, n: nat)
    requires n > 0
    ensures Truncate(v) < n <==> v < n as real
  {
  }

  /** No mouse event for a monitor other than the primary moves the cursor onto that monitor. */
  lemma OtherMonitorNeverReached(d: Desktop, s: Screen, e: InputEvent)
    requires LaidOut(d) && Shows(d, s) && ShowsOther(d, s) && 0 <= e.x < s.displayW && 0 <= e.y < s.displayH
    ensures forall x, y :: CursorAt(d, InjectMouse(d, e), x, y) ==> !OnMonitor(d, s, x, y)
  {
    hide InjectMouse;
    var x, y := MouseMovesCursor(d, e);
  }

  /** Another monitor, if there is one, takes the virtual screen at least four pixels beyond the
      primary one way or the other. */
  ghost predicate Roomy(d: Desktop) {
    && d.primW >= 4 && d.primH >= 4
    && (OnlyMonitor(d) || d.primW + 4 <= d.vsW || d.primH + 4 <= d.vsH)
  }

  ghost predicate Reached(d: Desktop, x: int, y: int) {
    CursorAt(d, InjectMouse(d, InputEvent(x, y, MOVE, 0, 0, 0, 0, 0)), d.offsetX + x, d.offsetY + y)
  }

  /** Every pixel of the monitor shown is reached by naming it if and only if the host has one
      monitor and no other. */
  lemma MonitorReachedIff(d: Desktop, s: Screen)
    requires LaidOut(d) && Roomy(d) && Shows(d, s) && (ShowsPrimary(d, s) || ShowsOther(d, s))
    ensures (forall x, y :: 0 <= x < s.displayW && 0 <= y < s.displayH ==> Reached(d, x, y)) <==> OnlyMonitor(d)
  {
    hide Normalise, PixelOf;
    if OnlyMonitor(d) {
      forall x, y | 0 <= x < s.displayW && 0 <= y < s.displayH ensures Reached(d, x, y) {
        var _, _ := MouseMovesCursor(d, InputEvent(x, y, MOVE, 0, 0, 0, 0, 0));
      }
    } else if ShowsOther(d, s) {
      OtherMonitorNeverReached(d, s, InputEvent(0, 0, MOVE, 0, 0, 0, 0, 0));
      assert !Reached(d, 0, 0);
    } else {
      if d.primW + 4 <= d.vsW {
        FirstOrLastMissed(d.vsX, d.vsW, d.primW);
      } else {
        FirstOrLastMissed(d.vsY, d.vsH, d.primH);
      }
      assert !Reached(d, 0, 0) || !Reached(d, d.primW - 1, d.primH - 1);
    }
  }

  /** A finger in the middle of a tablet that shows the right-hand one of two 1920x1080 monitors
      moves the cursor to three quarters of the left-hand one's width. */
  lemma CentreOfSecondMonitorMissed(penOk: bool, touchOk: bool)
    ensures var d, s := Desktop(1920, 0, 0, 0, 3840, 1080, 1920, 1080), Screen(1000, 600, 1920, 1080);
            var e := DownEvent(s, Pointer(0, false, 500.0, 300.0, 1.0, 0.0, 0.0));
            && LaidOut(d) && Shows(d, s)
            && e.x == 960 && e.y == 540 && CursorAt(d, Route(d, penOk, touchOk, e), 1440, 540)
  {
    ScaleFloor(2880, 3840);
    ScaleFloor(540, 1080);
  }

  /** The pixel an event names is on the monitor if and only if the touch is short of the view's
      right and bottom edges, wherever it is reported; on such an edge it is the first one past
      the monitor, since the tablet admits the display's full width and height. */
  lemma NamedOnMonitorIff(d: Desktop, s: Screen, p: Pointer, kind: nat)
    requires 0 < s.displayW && 0 < s.displayH
    ensures var e := ToEvent(s, p, kind);
            OnMonitor(d, s, d.offsetX + e.x, d.offsetY + e.y) <==> p.x < ViewExtent(s.viewW) && p.y < ViewExtent(s.viewH)
  {
    PlaceInsideIff(p.x, s.viewW, s.displayW);
    PlaceInsideIff(p.y, s.viewH, s.displayH);
    hide Place, ViewExtent;
  }

  /** From a finger on the glass to the cursor: the pixel named is on the monitor shown if and only if
      the touch is short of the view's far edges, and then the cursor goes to a pixel of the
      primary monitor: the one named if there is no other monitor, and one that is not on the
      monitor shown if that is another. */
  lemma FingerStaysOnMonitorIff(d: Desktop, s: Screen, p: Pointer, e: InputEvent, penOk: bool, touchOk: bool)
    requires !p.stylus && e in {DownEvent(s, p), MoveEvent(s, p), UpEvent(s, p)} && LaidOut(d) && Shows(d, s)
    ensures var inView := p.x < ViewExtent(s.viewW) && p.y < ViewExtent(s.viewH);
            var i := Route(d, penOk, touchOk, e);
            && (OnMonitor(d, s, d.offsetX + e.x, d.offsetY + e.y) <==> inView)
            && (inView ==>
                  && (exists x, y :: CursorAt(d, i, x, y) && OnPrimary(d, x, y))
                  && (OnlyMonitor(d) ==> CursorAt(d, i, d.offsetX + e.x, d.offsetY + e.y))
                  && (ShowsOther(d, s) ==> forall x, y :: CursorAt(d, i, x, y) ==> !OnMonitor(d, s, x, y)))
  {
    NamedOnMonitorIff(d, s, p, e.kind);
    hide Place, ViewExtent, CursorAt, InjectMouse;
    if p.x < ViewExtent(s.viewW) && p.y < ViewExtent(s.viewH) {
      var x, y := MouseMovesCursor(d, e);
      if ShowsOther(d, s) { OtherMonitorNeverReached(d, s, e); }
    }
  }

  /** A stylus goes by monitor pixels instead, as pen or touch contact: it is injected at the very
      pixel named, on whichever monitor, and that is on the monitor shown if and only if the touch
      is short of the view's far edges. */
  lemma StylusStaysOnMonitorIff(d: Desktop, s: Screen, p: Pointer, e: InputEvent, penOk: bool)
    requires p.stylus && e in {DownEvent(s, p), MoveEvent(s, p), UpEvent(s, p)} && 0 < s.displayW && 0 < s.displayH
    ensures var i := Route(d, penOk, true, e);
            && (if penOk then i.Pen? else i.TouchPoint?)
            && i.kind == e.kind && i.x == d.offsetX + e.x && i.y == d.offsetY + e.y
            && (OnMonitor(d, s, i.x, i.y) <==> p.x < ViewExtent(s.viewW) && p.y < ViewExtent(s.viewH))
  {
    NamedOnMonitorIff(d, s, p, e.kind);
    hide Place, ViewExtent, OnMonitor;
  }

  // ------------------------------------------------------------ what a touch can do

  lemma {:induction false} MovesCarryNoButtons(s: Screen, active: set<int>, ps: seq<Pointer>)
    ensures forall e :: e in MoveEvents(s, active, ps) ==> e.buttons == 0
    decreases |ps|
  {
    if ps != [] { MovesCarryNoButtons(s, active, ps[..|ps| - 1]); }
  }

  lemma {:induction false} CancelsCarryNoButtons(events: seq<InputEvent>, ids: set<int>)
    requires Cancels(events, ids)
    ensures forall e :: e in events ==> e.buttons == 0
    decreases |events|
  {
    if events != [] {
      var n := |events| - 1;
      CancelsCarryNoButtons(events[..n], ids - {events[n].pointerId});
      assert events == events[..n] + [events[n]];
    }
  }

  /** Every event the tablet's touch handler sends carries no buttons, so whatever the touch, the
      mouse input it becomes on the host presses and releases nothing: a finger moves the cursor
      and never clicks. */
  lemma TouchesNeverClick(
    s: Screen, before: set<int>, t: Touch, events: seq<InputEvent>, after: set<int>,
    d: Desktop, penOk: bool, touchOk: bool, k: nat)
    requires Handles(s, before, t, events, after) && k < |events|
    ensures var i := Route(d, penOk, touchOk, events[k]); i.Mouse? ==> i.buttons == {}
  {
    hide Normalise;
    match t {
      case PointersMove(ps) => MovesCarryNoButtons(s, before, ps);
      case Cancelled => CancelsCarryNoButtons(events, before);
      case _ =>
    }
    assert events[k] in events && events[k].buttons == 0;
  }

  // ------------------------------------------------------------ what each event becomes

  /** Tenths of degrees to degrees, towards zero. */
  ghost predicate TenthOf(deg: int, tenths: int) {
    if tenths >= 0 then 10 * deg <= tenths < 10 * deg + 10 else 10 * deg - 10 < tenths <= 10 * deg
  }

  /** Where events go, by kind: down, move and up (1, 0, 2) to the mouse, with their buttons; stylus
      events (3, 4, 5) to the pen, with pressure scaled from 255 to 1024 and tilt in degrees, or
      without a pen device to touch; a cancel (6) to the pen, which it releases at the monitor's
      corner, or to touch; anything else nowhere. */
  lemma RouteByKind(d: Desktop, penOk: bool, touchOk: bool, e: InputEvent)
    requires Representable(e) && d.vsW > 0 && d.vsH > 0
    ensures var i := Route(d, penOk, touchOk, e);
            && (e.kind in {0, 1, 2} ==>
                  && i.Mouse? && i.released == (e.kind == 2)
                  && (Left in i.buttons <==> e.buttons % 2 == 1)
                  && (Right in i.buttons <==> e.buttons % 4 in {2, 3})
                  && (Middle in i.buttons <==> e.buttons % 8 in {4, 5, 6, 7}))
            && (e.kind in {3, 4, 5} && penOk ==>
                  && i.Pen? && i.x == d.offsetX + e.x && i.y == d.offsetY + e.y && i.kind == e.kind
                  && 255 * i.pressure <= 1024 * e.pressure < 255 * i.pressure + 255
                  && TenthOf(i.tiltX, e.tiltX) && TenthOf(i.tiltY, e.tiltY))
            && (e.kind == 6 && penOk ==> i == Pen(d.offsetX, d.offsetY, 6, 0, 0, 0))
            && (e.kind in {3, 4, 5, 6} && !penOk ==>
                  i == if touchOk then TouchPoint(d.offsetX + e.x, d.offsetY + e.y, e.kind, e.pointerId % 16) else Nothing)
            && (e.kind > 6 ==> i.Nothing?)
  {
    hide Normalise;
  }

  /** Without a virtual screen no mouse input is made. */
  lemma NoScreenNoMouse(d: Desktop, penOk: bool, touchOk: bool, e: InputEvent)
    requires d.vsW <= 0 || d.vsH <= 0
    ensures !Route(d, penOk, touchOk, e).Mouse?
  {
  }
}
