/** The adaptive-resolution controller of the host's main loop (host/src/main.cpp):
    a moving average of send times, two streaks, and a ladder of four sizes. */
module Controller {

  const LADDER_STEPS := 4          // kScaleCount
  const SEND_UP_MS := 18.0         // average above this: congested
  const SEND_DOWN_MS := 6.0        // average below this: clear
  const SEND_UP_FRAMES := 45
  const SEND_DOWN_FRAMES := 150

  datatype Ctl = Ctl(scaleIdx: int, avg: real, up: nat, down: nat)

  predicate Sane(c: Ctl) {
    0 <= c.scaleIdx < LADDER_STEPS && c.avg >= 0.0
  }

  function Average(avg: real, ms: real): real {
    if avg == 0.0 then ms else avg * 0.9 + ms * 0.1
  }

  /** The streaks after a frame whose average is `c.avg`. */
  function Count(c: Ctl): Ctl {
    if c.avg > SEND_UP_MS then c.(up := c.up + 1, down := 0)
    else if c.avg < SEND_DOWN_MS then c.(down := c.down + 1, up := 0)
    else c.(up := 0, down := 0)
  }

  /** The ladder step, if a streak is long enough and the ladder has room. */
  function Climb(c: Ctl): Ctl {
    if c.up >= SEND_UP_FRAMES && c.scaleIdx < LADDER_STEPS - 1 then c.(scaleIdx := c.scaleIdx + 1, up := 0)
    else if c.down >= SEND_DOWN_FRAMES && c.scaleIdx > 0 then c.(scaleIdx := c.scaleIdx - 1, down := 0)
    else c
  }

  /** What one sent frame that took `ms` milliseconds to send does to the controller. */
  function Tick(c: Ctl, ms: real): Ctl {
    Climb(Count(c.(avg := Average(c.avg, ms))))
  }

  /** The controller after frames with these send times. */
  function Ticks(c: Ctl, ms: seq<real>): Ctl
    decreases |ms|
  {
    if ms == [] then c else Tick(Ticks(c, ms[..|ms| - 1]), ms[|ms| - 1])
  }

  ghost predicate AllAtLeast(ms: seq<real>, lo: real) {
    forall k :: 0 <= k < |ms| ==> ms[k] >= lo
  }

  ghost predicate AllWithin(ms: seq<real>, lo: real, hi: real) {
    forall k :: 0 <= k < |ms| ==> lo <= ms[k] <= hi
  }

  lemma TickSane(c: Ctl, ms: real)
    requires Sane(c) && ms >= 0.0
    ensures Sane(Tick(c, ms))
  {
  }

  lemma {:induction false} TicksSane(c: Ctl, ms: seq<real>)
    requires Sane(c) && AllAtLeast(ms, 0.0)
    ensures Sane(Ticks(c, ms))
    decreases |ms|
  {
    if ms != [] {
      TicksSane(c, ms[..|ms| - 1]);
      TickSane(Ticks(c, ms[..|ms| - 1]), ms[|ms| - 1]);
    }
  }

  // ------------------------------------------------------- sustained congestion

  /** A lower bound for the average after n send times of at least 36 ms. */
  function Floor36(n: nat): real {
    if n == 0 then 0.0 else Floor36(n - 1) * 0.9 + 3.6
  }

  lemma {:induction false} Floor36Bounds(n: nat)
    ensures 0.0 <= Floor36(n) <= 36.0
    ensures n > 6 ==> Floor36(n) > SEND_UP_MS
  {
    if n > 0 {
      Floor36Bounds(n - 1);
      if n == 7 {
        assert Floor36(1) == 3.6;
        assert Floor36(2) == 6.84;
        assert Floor36(3) == 9.756;
        assert Floor36(4) == 12.3804;
        assert Floor36(5) == 14.74236;
        assert Floor36(6) == 16.868124;
      }
    }
  }

  /** How far down the ladder, in congested frames; a streak beyond 44 counts as 44. */
  function Descent(c: Ctl): int {
    SEND_UP_FRAMES * c.scaleIdx + (if c.up < SEND_UP_FRAMES then c.up else SEND_UP_FRAMES - 1)
  }

  lemma CongestedTick(c: Ctl, ms: real)
    requires Sane(c) && Average(c.avg, ms) > SEND_UP_MS
    ensures c.scaleIdx == LADDER_STEPS - 1 ==> Tick(c, ms).scaleIdx == LADDER_STEPS - 1
    ensures c.scaleIdx < LADDER_STEPS - 1 ==> Descent(Tick(c, ms)) == Descent(c) + 1
  {
  }

  lemma {:induction false} DescentUnderCongestion(c: Ctl, ms: seq<real>)
    requires Sane(c) && AllAtLeast(ms, 36.0)
    ensures var d := Ticks(c, ms);
            && Sane(d) && d.avg >= Floor36(|ms|)
            && (|ms| > 6 ==> Descent(d) >= |ms| - 6 || d.scaleIdx == LADDER_STEPS - 1)
    decreases |ms|
  {
    if ms != [] {
      var n := |ms| - 1;
      var before, m := Ticks(c, ms[..n]), ms[n];
      DescentUnderCongestion(c, ms[..n]);
      TickSane(before, m);
      Floor36Bounds(n);
      Floor36Bounds(n + 1);
      if n >= 6 {
        CongestedTick(before, m);
      }
    }
  }

  /** Sustained congestion reaches the bottom of the ladder: from any state, once 141 frames in a
      row take 36 ms or more (6 to move the average, 45 a step) the bottom is reached, and kept. */
  lemma CongestionReachesBottom(c: Ctl, ms: seq<real>)
    requires Sane(c) && AllAtLeast(ms, 36.0)
    requires |ms| >= 6 + 3 * SEND_UP_FRAMES
    ensures Ticks(c, ms).scaleIdx == LADDER_STEPS - 1
  {
    DescentUnderCongestion(c, ms);
  }

  lemma {:induction false} DescentAtMost(c: Ctl, ms: seq<real>)
    requires Sane(c) && c.up < SEND_UP_FRAMES && AllAtLeast(ms, 0.0)
    ensures var d := Ticks(c, ms);
            && Sane(d) && (d.up < SEND_UP_FRAMES || d.scaleIdx == LADDER_STEPS - 1)
            && SEND_UP_FRAMES * d.scaleIdx + d.up <= SEND_UP_FRAMES * c.scaleIdx + c.up + |ms|
    decreases |ms|
  {
    if ms != [] {
      var n := |ms| - 1;
      DescentAtMost(c, ms[..n]);
      TickSane(Ticks(c, ms[..n]), ms[n]);
    }
  }

  lemma {:induction false} TicksSplit(c: Ctl, a: seq<real>, b: seq<real>)
    ensures Ticks(c, a + b) == Ticks(Ticks(c, a), b)
    decreases |b|
  {
    if b == [] {
      assert a + b == a;
    } else {
      var n := |b| - 1;
      assert (a + b)[..|a + b| - 1] == a + b[..n];
      TicksSplit(c, a, b[..n]);
    }
  }

  /** 141 is the least such number: after one frame of 1 ms, 140 frames of 36 ms do not reach
      the bottom. */
  lemma CongestionBoundIsTight()
    ensures var c := Tick(Ctl(0, 0.0, 0, 0), 1.0);
            Ticks(c, seq(140, _ => 36.0)).scaleIdx < LADDER_STEPS - 1
  {
    var c := Tick(Ctl(0, 0.0, 0, 0), 1.0);
    var a: seq<real> := seq(6, _ => 36.0);
    var b: seq<real> := seq(134, _ => 36.0);
    assert c == Ctl(0, 1.0, 0, 1);
    var c1 := Tick(c, 36.0);
    var c2 := Tick(c1, 36.0);
    var c3 := Tick(c2, 36.0);
    var c4 := Tick(c3, 36.0);
    var c5 := Tick(c4, 36.0);
    var c6 := Tick(c5, 36.0);
    assert c6.up == 0 && c6.scaleIdx == 0;
    assert Ticks(c, a) == c6 by {
      assert a[..5][..4] == a[..4] && a[..4][..3] == a[..3] && a[..3][..2] == a[..2] && a[..2][..1] == a[..1];
      assert Ticks(c, a[..1]) == c1 by { assert a[..1][..0] == []; }
      assert Ticks(c, a[..2]) == c2;
      assert Ticks(c, a[..3]) == c3;
      assert Ticks(c, a[..4]) == c4;
      assert Ticks(c, a[..5]) == c5;
    }
    assert seq(140, _ => 36.0) == a + b;
    TicksSplit(c, a, b);
    DescentAtMost(c6, b);
  }

  // ----------------------------------------------------------- a cleared link

  /** The number of frames of at most 3 ms after which an average of `a` is below 6 ms. */
  function SettleTime(a: real): nat
    decreases if a < 6.0 then 0.0 else 10.0 * a
  {
    if a < SEND_DOWN_MS then 0 else 1 + SettleTime(a * 0.9 + 0.3)
  }

  /** The settling time in closed form: at most one frame per 0.3 ms above the threshold. */
  lemma {:induction false} SettleTimeBound(a: real)
    requires a >= 6.0
    ensures 3.0 * (SettleTime(a) as real - 1.0) <= 10.0 * (a - 6.0)
    decreases 10.0 * a
  {
    var b := a * 0.9 + 0.3;
    if b >= 6.0 {
      SettleTimeBound(b);
    }
  }

  lemma {:induction false} SettleTimeMonotone(a: real, b: real)
    requires a <= b
    ensures SettleTime(a) <= SettleTime(b)
    decreases if b < 6.0 then 0.0 else 10.0 * b
  {
    if a >= SEND_DOWN_MS {
      SettleTimeMonotone(a * 0.9 + 0.3, b * 0.9 + 0.3);
    }
  }

  /** How far up the ladder, in clear frames; a streak beyond 149 counts as 149. */
  function Ascent(c: Ctl): int {
    SEND_DOWN_FRAMES * (LADDER_STEPS - 1 - c.scaleIdx)
    + (if c.down < SEND_DOWN_FRAMES then c.down else SEND_DOWN_FRAMES - 1)
  }

  lemma ClearTick(c: Ctl, ms: real)
    requires Sane(c) && Average(c.avg, ms) < SEND_DOWN_MS
    ensures c.scaleIdx == 0 ==> Tick(c, ms).scaleIdx == 0
    ensures c.scaleIdx > 0 ==> Ascent(Tick(c, ms)) == Ascent(c) + 1
  {
  }

  /** One quick frame: the average settles one frame sooner than before, or has settled. */
  lemma QuickTick(c: Ctl, ms: real)
    requires Sane(c) && 0.0 <= ms <= 3.0
    ensures SettleTime(c.avg) > 0 ==> SettleTime(Tick(c, ms).avg) <= SettleTime(c.avg) - 1
    ensures SettleTime(c.avg) == 0 ==> SettleTime(Tick(c, ms).avg) == 0
  {
    if c.avg >= SEND_DOWN_MS {
      SettleTimeMonotone(Average(c.avg, ms), c.avg * 0.9 + 0.3);
    }
  }

  lemma {:induction false} AscentWhenClear(c: Ctl, ms: seq<real>)
    requires Sane(c) && AllWithin(ms, 0.0, 3.0)
    ensures var d := Ticks(c, ms);
            && Sane(d)
            && SettleTime(d.avg) <= (if |ms| < SettleTime(c.avg) then SettleTime(c.avg) - |ms| else 0)
            && (|ms| > SettleTime(c.avg) ==> Ascent(d) >= |ms| - SettleTime(c.avg) || d.scaleIdx == 0)
    decreases |ms|
  {
    if ms != [] {
      var n := |ms| - 1;
      var before, m := Ticks(c, ms[..n]), ms[n];
      AscentWhenClear(c, ms[..n]);
      TickSane(before, m);
      QuickTick(before, m);
      if n >= SettleTime(c.avg) {
        ClearTick(before, m);
      }
    }
  }

  /** A link that clears returns to the native size: once send times stay at or below 3 ms, the
      top is reached within the average's settling time and 450 frames, and kept. */
  lemma ClearingReachesTop(c: Ctl, ms: seq<real>)
    requires Sane(c) && AllWithin(ms, 0.0, 3.0)
    requires |ms| >= SettleTime(c.avg) + 3 * SEND_DOWN_FRAMES
    ensures Ticks(c, ms).scaleIdx == 0
  {
    AscentWhenClear(c, ms);
  }

  // ------------------------------------------------------- when a step is taken, exactly

  /** The controller after the first k frames of a run from start-up. */
  function At(ms: seq<real>, k: nat): Ctl
    requires k <= |ms|
  {
    Ticks(Ctl(0, 0.0, 0, 0), ms[..k])
  }

  /** Frame k made the controller go down, or up, the ladder. */
  predicate DownAt(ms: seq<real>, k: nat)
    requires k < |ms|
  {
    At(ms, k + 1).scaleIdx > At(ms, k).scaleIdx
  }

  predicate UpAt(ms: seq<real>, k: nat)
    requires k < |ms|
  {
    At(ms, k + 1).scaleIdx < At(ms, k).scaleIdx
  }

  lemma AtNext(ms: seq<real>, k: nat)
    requires k < |ms|
    ensures At(ms, k + 1) == Tick(At(ms, k), ms[k])
    ensures At(ms, 0) == Ctl(0, 0.0, 0, 0)
  {
    hide Tick;
    assert ms[..k + 1][..k] == ms[..k] && ms[..0] == [];
  }

  /** The average after frame i is above 18 ms, and the frame did not make the controller go down. */
  predicate SlowAt(ms: seq<real>, i: nat)
    requires i < |ms|
  {
    At(ms, i + 1).avg > 18.0 && !DownAt(ms, i)
  }

  /** The average after frame i is below 6 ms, and the frame did not make the controller go up. */
  predicate QuickAt(ms: seq<real>, i: nat)
    requires i < |ms|
  {
    At(ms, i + 1).avg < 6.0 && !UpAt(ms, i)
  }

  /** The last n frames before frame k were all slow. */
  ghost predicate Congested(ms: seq<real>, k: nat, n: nat)
    requires k <= |ms|
  {
    n <= k && forall i :: k - n <= i < k ==> SlowAt(ms, i)
  }

  /** The last n frames before frame k were all quick. */
  ghost predicate Clear(ms: seq<real>, k: nat, n: nat)
    requires k <= |ms|
  {
    n <= k && forall i :: k - n <= i < k ==> QuickAt(ms, i)
  }

  lemma CongestedNext(ms: seq<real>, k: nat, n: nat)
    requires k < |ms|
    ensures Congested(ms, k + 1, n + 1) <==> Congested(ms, k, n) && SlowAt(ms, k)
    ensures Clear(ms, k + 1, n + 1) <==> Clear(ms, k, n) && QuickAt(ms, k)
    ensures Congested(ms, k, 0) && Clear(ms, k, 0)
  {
    hide SlowAt, QuickAt;
  }

  /** What one tick does to the streaks. */
  lemma StreaksNext(c: Ctl, ms: real)
    requires c.up == 0 || c.down == 0
    ensures var d := Tick(c, ms);
            && (d.up == 0 || d.down == 0)
            && d.up == (if d.avg > 18.0 && !(d.scaleIdx > c.scaleIdx) then c.up + 1 else 0)
            && d.down == (if d.avg < 6.0 && !(d.scaleIdx < c.scaleIdx) then c.down + 1 else 0)
            && d.scaleIdx == (if c.scaleIdx < 3 && d.avg > 18.0 && c.up + 1 >= 45 then c.scaleIdx + 1
                              else if c.scaleIdx > 0 && d.avg < 6.0 && c.down + 1 >= 150 then c.scaleIdx - 1
                              else c.scaleIdx)
  {
  }

  /** A streak is at least n frames long exactly when the last n frames say so. */
  lemma {:induction false} StreaksIff(ms: seq<real>, k: nat, n: nat)
    requires k <= |ms|
    ensures At(ms, k).up == 0 || At(ms, k).down == 0
    ensures At(ms, k).up >= n <==> Congested(ms, k, n)
    ensures At(ms, k).down >= n <==> Clear(ms, k, n)
    decreases k
  {
    hide At, Congested, Clear, Tick;
    if k == 0 {
      NothingYet(ms, n);
    } else {
      AtNext(ms, k - 1);
      StreaksIff(ms, k - 1, if n == 0 then 0 else n - 1);
      StreaksNext(At(ms, k - 1), ms[k - 1]);
      if n == 0 && k < |ms| { CongestedNext(ms, k, 0); }
      if n > 0 { CongestedNext(ms, k - 1, n - 1); } else { NoneNeeded(ms, k); }
    }
  }

  lemma NothingYet(ms: seq<real>, n: nat)
    ensures At(ms, 0) == Ctl(0, 0.0, 0, 0)
    ensures Congested(ms, 0, n) <==> n == 0
    ensures Clear(ms, 0, n) <==> n == 0
  {
    assert ms[..0] == [];
  }

  lemma NoneNeeded(ms: seq<real>, k: nat)
    requires k <= |ms|
    ensures Congested(ms, k, 0) && Clear(ms, k, 0)
  {
  }

  /** Over every run of send times from start-up: a frame makes the controller go one step down the
      ladder if and only if there is one and the averages after it and the 44 frames before it
      were all above 18 ms, with no step down among those 44; one step up if and only if there
      is one and the averages after it and the 149 frames before it were all below 6 ms, with no
      step up among those 149; and otherwise it stays. */
  lemma StepsIff(ms: seq<real>, k: nat)
    requires k < |ms|
    ensures var idx, avg := At(ms, k).scaleIdx, At(ms, k + 1).avg;
            At(ms, k + 1).scaleIdx ==
              if idx < 3 && avg > 18.0 && Congested(ms, k, 44) then idx + 1
              else if idx > 0 && avg < 6.0 && Clear(ms, k, 149) then idx - 1
              else idx
  {
    hide At, Congested, Clear, Tick;
    AtNext(ms, k);
    StreaksIff(ms, k, 44);
    StreaksIff(ms, k, 149);
    StreaksNext(At(ms, k), ms[k]);
  }

  // ------------------------------------------------------- the average in closed form

  function Power(x: real, n: nat): real {
    if n == 0 then 1.0 else x * Power(x, n - 1)
  }

  /** A tenth of each send time from frame i on, less a tenth for every frame since. */
  function Weighted(ms: seq<real>, i: nat, n: nat): real
    requires i <= n <= |ms|
    decreases n - i
  {
    if i == n then 0.0 else 0.1 * Power(0.9, n - 1 - i) * ms[i] + Weighted(ms, i + 1, n)
  }

  lemma {:induction false} WeightedNext(ms: seq<real>, i: nat, n: nat)
    requires i <= n < |ms|
    ensures Weighted(ms, i, n + 1) == 0.9 * Weighted(ms, i, n) + 0.1 * ms[n]
    decreases n - i
  {
    if i < n {
      WeightedNext(ms, i + 1, n);
      assert Power(0.9, n - i) == 0.9 * Power(0.9, n - 1 - i);
      assert 0.1 * (0.9 * Power(0.9, n - 1 - i)) * ms[i] == 0.9 * (0.1 * Power(0.9, n - 1 - i) * ms[i]);
    } else {
      assert Power(0.9, 0) == 1.0 && Weighted(ms, n + 1, n + 1) == 0.0;
    }
  }

  /** After positive send times the average is the first one's share, 0.9 to the number of frames
      since, and a tenth of every later one's, likewise faded. */
  lemma {:induction false} AverageClosedForm(ms: seq<real>, n: nat)
    requires 0 < n <= |ms| && forall k :: 0 <= k < |ms| ==> ms[k] > 0.0
    ensures At(ms, n).avg == Power(0.9, n - 1) * ms[0] + Weighted(ms, 1, n) > 0.0
    decreases n
  {
    hide At, Weighted;
    AtNext(ms, n - 1);
    if n == 1 {
      FirstAverage(ms);
    } else {
      AverageClosedForm(ms, n - 1);
      WeightedNext(ms, 1, n - 1);
      var p := Power(0.9, n - 2);
      assert Power(0.9, n - 1) == 0.9 * p;
      assert 0.9 * p * ms[0] == 0.9 * (p * ms[0]);
    }
  }

  lemma FirstAverage(ms: seq<real>)
    requires ms != []
    ensures Power(0.9, 0) == 1.0 && Weighted(ms, 1, 1) == 0.0
  {
  }
}
