/** The tablet's bounded frame queues (tablet Client.kt, VideoPlayer.kt): one producer, the receive
    thread; any number of consumers; and the player's loop that drops stale frames. They interleave
    at the steps a ConcurrentLinkedQueue makes atomic: one add, one poll, and every single read of a
    size(), which walks the nodes while others add and poll. */
module FrameQueue {
  import opened Bytes

  const MAX_QUEUED_FRAMES := 4
  const MAX_QUEUED_AUDIO_FRAMES := 80
  const MAX_STALE_FRAMES := 4

  /** A size() under way. Nodes are numbered in the order they were added. `First`: about to find
      the first node with a frame; `Look`: about to see whether a node still has its frame;
      `Link`: about to follow the node's link; `Counted`: the answer. */
  datatype Walk = First | Look(node: nat, count: nat) | Link(node: nat, count: nat) | Counted(count: nat)

  /** The receive thread in `while (size >= max) poll(); add(f)`, or clearing the queue. */
  datatype Producer<F> = Idle | Sizing(f: F, walk: Walk) | AtPoll(f: F) | AtAdd(f: F) | Clearing

  /** The player in `while (size > 4) poll()`. While it counts: the first node of its walk, how many
      frames had been added when it set out, and how many were gone before it looked at them. */
  datatype Player = Away | Counting(walk: Walk, since: nat, start: nat, missed: nat) | AtDrop(count: nat)

  /** A step: a frame arrives at the idle producer, or the connection is lost and it clears the
      queue; the producer, or the player, takes its next step; the player enters its loop; some
      consumer polls. A walk that follows the link of a node the queue has dropped starts over. */
  datatype Action<F> = Arrive(f: F) | Clear | Produce | ProducerRestarts | Consume | Check | Play | PlayerRestarts

  /** The queue and the threads, and the record: the frames added, how many of them were gone when
      the last clear ended, and for each delivered frame its place among those added. */
  datatype World<F> = World(
    max: nat, queue: seq<F>, producer: Producer<F>, player: Player,
    accepted: seq<F>, cleared: nat, delivered: seq<F>, places: seq<nat>)

  function Start<F>(max: nat): World<F> {
    World(max, [], Idle, Away, [], 0, [], [])
  }

  function Poll<F>(q: seq<F>): seq<F> {
    if q == [] then [] else q[1..]
  }

  /** The number of the oldest node that still has its frame. */
  function Head<F>(w: World<F>): nat {
    if |w.accepted| < |w.queue| then 0 else |w.accepted| - |w.queue|
  }

  function WalkStep(head: nat, added: nat, k: Walk): Walk {
    match k
    case First => if head < added then Look(head, 0) else Counted(0)
    case Look(p, c) => Link(p, if head <= p then c + 1 else c)
    case Link(p, c) => if p + 1 < added then Look(p + 1, c) else Counted(c)
    case Counted(_) => k
  }

  function ProducerStep<F>(w: World<F>): World<F> {
    match w.producer
    case Idle => w
    case Sizing(f, k) =>
      var next := WalkStep(Head(w), |w.accepted|, k);
      w.(producer :=
        if !next.Counted? then Sizing(f, next) else if next.count >= w.max then AtPoll(f) else AtAdd(f))
    case AtPoll(f) => w.(queue := Poll(w.queue), producer := Sizing(f, First))
    case AtAdd(f) => w.(queue := w.queue + [f], accepted := w.accepted + [f], producer := Idle)
    case Clearing =>
      if w.queue == [] then w.(producer := Idle, cleared := |w.accepted|) else w.(queue := Poll(w.queue))
  }

  function PlayerStep<F>(w: World<F>): World<F> {
    match w.player
    case Away => w
    case Counting(k, since, start, missed) =>
      var next := WalkStep(Head(w), |w.accepted|, k);
      w.(player :=
        if next.Counted? then (if next.count > MAX_STALE_FRAMES then AtDrop(next.count) else Away)
        else if k.First? then Counting(next, Head(w), |w.accepted|, 0)
        else Counting(next, since, start, if k.Look? && k.node < Head(w) then missed + 1 else missed))
    case AtDrop(_) => w.(queue := Poll(w.queue), player := Counting(First, 0, 0, 0))
  }

  /** The node a walk stands on has been taken out of the list. */
  predicate Dropped<F>(w: World<F>, k: Walk) {
    k.Link? && k.node < Head(w)
  }

  function Act<F>(w: World<F>, a: Action<F>): World<F> {
    match a
    case Arrive(f) => if w.producer.Idle? then w.(producer := Sizing(f, First)) else w
    case Clear => if w.producer.Idle? then w.(producer := Clearing) else w
    case Produce => ProducerStep(w)
    case ProducerRestarts =>
      if w.producer.Sizing? && Dropped(w, w.producer.walk) then w.(producer := Sizing(w.producer.f, First)) else w
    case Consume =>
      if w.queue == [] then w
      else w.(queue := w.queue[1..], delivered := w.delivered + [w.queue[0]], places := w.places + [Head(w)])
    case Check => if w.player.Away? then w.(player := Counting(First, 0, 0, 0)) else w
    case Play => PlayerStep(w)
    case PlayerRestarts =>
      if w.player.Counting? && Dropped(w, w.player.walk) then w.(player := Counting(First, 0, 0, 0)) else w
  }

  function After<F>(max: nat, acts: seq<Action<F>>): World<F>
    decreases |acts|
  {
    if acts == [] then Start(max) else Act(After(max, acts[..|acts| - 1]), acts[|acts| - 1])
  }

  /** Strictly increasing places, each holding the frame delivered. */
  ghost predicate InOrder<F>(w: World<F>) {
    && |w.places| == |w.delivered|
    && (forall i :: 0 <= i < |w.places| ==> w.places[i] < Head(w) && w.accepted[w.places[i]] == w.delivered[i])
    && (forall i, j :: 0 <= i < j < |w.places| ==> w.places[i] < w.places[j])
  }

  /** How many nodes a walk is past. */
  function Passed(k: Walk): nat {
    match k
    case Look(p, _) => p
    case Link(p, _) => p + 1
    case _ => 0
  }

  /** A walk stands on a node, and has counted every frame it passed that is still there. */
  ghost predicate Walking<F>(w: World<F>, k: Walk) {
    && !k.Counted?
    && (!k.First? ==> k.node < |w.accepted| && k.count + Head(w) >= Passed(k))
  }

  /** The player's walk: every node since its first was counted or found empty. */
  ghost predicate CountTold<F>(w: World<F>, p: Player)
    requires p.Counting?
  {
    !p.walk.First? ==>
      && p.since <= Head(w) && p.since <= p.start <= |w.accepted| && p.start - p.since <= w.max
      && p.walk.count + p.missed + p.since == Passed(p.walk)
  }

  ghost predicate QueueTold<F>(w: World<F>) {
    && |w.queue| <= w.max
    && (w.producer.AtAdd? ==> |w.queue| < w.max)
    && w.cleared + |w.queue| <= |w.accepted|
    && w.queue == w.accepted[|w.accepted| - |w.queue|..]
  }

  ghost predicate WalksTold<F>(w: World<F>) {
    && (w.producer.Sizing? ==> Walking(w, w.producer.walk))
    && (w.player.Counting? ==> Walking(w, w.player.walk) && CountTold(w, w.player))
  }

  ghost predicate Inv<F>(w: World<F>) {
    QueueTold(w) && InOrder(w) && WalksTold(w)
  }

  /** The oldest frame leaves the queue, whoever takes it. */
  lemma PollKeeps<F>(w: World<F>)
    requires Inv(w)
    ensures Inv(w.(queue := Poll(w.queue)))
  {
  }

  lemma AddKeeps<F>(w: World<F>, f: F)
    requires Inv(w) && |w.queue| < w.max
    ensures Inv(w.(queue := w.queue + [f], accepted := w.accepted + [f], producer := Idle))
  {
    assert (w.accepted + [f])[|w.accepted| - |w.queue|..] == w.queue + [f];
  }

  lemma ConsumeKeeps<F>(w: World<F>)
    requires Inv(w)
    ensures Inv(Act(w, Consume))
  {
    PollKeeps(w);
    hide WalksTold;
    WalksAlike(w.(queue := Poll(w.queue)), Act(w, Consume));
  }

  lemma WalksAlike<F>(w: World<F>, v: World<F>)
    requires WalksTold(w) && v.producer == w.producer && v.player == w.player && v.max == w.max
    requires v.queue == w.queue && v.accepted == w.accepted
    ensures WalksTold(v)
  {
  }

  lemma SizingKeeps<F>(w: World<F>)
    requires Inv(w) && w.producer.Sizing?
    ensures Inv(ProducerStep(w))
  {
    hide InOrder, CountTold;
    OrderAlike(w, ProducerStep(w));
    PlayerAlike(w, ProducerStep(w));
  }

  lemma PlayerAlike<F>(w: World<F>, v: World<F>)
    requires v.player == w.player && v.max == w.max && v.queue == w.queue && v.accepted == w.accepted
    ensures w.player.Counting? ==> CountTold(w, w.player) == CountTold(v, v.player)
  {
  }

  /** The producer going on to count, or to rest, in a world that keeps the invariant. */
  lemma ProducerMoves<F>(v: World<F>, p: Producer<F>, cleared: nat)
    requires Inv(v) && !p.AtAdd? && (p.Sizing? ==> p.walk.First?)
    requires cleared == v.cleared || (v.queue == [] && cleared == |v.accepted|)
    ensures Inv(v.(producer := p, cleared := cleared))
  {
    hide InOrder, CountTold;
    OrderAlike(v, v.(producer := p, cleared := cleared));
    PlayerAlike(v, v.(producer := p, cleared := cleared));
  }

  lemma ProduceKeeps<F>(w: World<F>)
    requires Inv(w)
    ensures Inv(ProducerStep(w))
  {
    hide Inv;
    match w.producer {
      case Sizing(_, _) => SizingKeeps(w);
      case AtAdd(f) =>
        RoomToAdd(w);
        AddKeeps(w, f);
      case AtPoll(f) =>
        PollKeeps(w);
        ProducerMoves(w.(queue := Poll(w.queue)), Sizing(f, First), w.cleared);
      case Clearing =>
        PollKeeps(w);
        if w.queue == [] { ProducerMoves(w, Idle, |w.accepted|); }
      case Idle =>
    }
  }

  lemma RoomToAdd<F>(w: World<F>)
    requires Inv(w) && w.producer.AtAdd?
    ensures |w.queue| < w.max
  {
  }

  lemma OrderAlike<F>(w: World<F>, v: World<F>)
    requires InOrder(w)
    ensures v.queue == w.queue && v.accepted == w.accepted && v.delivered == w.delivered && v.places == w.places ==> InOrder(v)
  {
  }

  /** The player turning to something else, in a world that keeps the invariant. */
  lemma PlayerMoves<F>(v: World<F>, p: Player)
    requires Inv(v) && (p.Counting? ==> p.walk.First? || (Walking(v, p.walk) && CountTold(v, p)))
    ensures Inv(v.(player := p))
  {
    hide InOrder;
    OrderAlike(v, v.(player := p));
  }

  lemma CountGoesOn<F>(w: World<F>)
    requires QueueTold(w) && w.player.Counting? && Walking(w, w.player.walk) && CountTold(w, w.player)
    ensures var p := PlayerStep(w).player; PlayerStep(w) == w.(player := p)
    ensures var p := PlayerStep(w).player; p.Counting? ==> p.walk.First? || (Walking(w, p.walk) && CountTold(w, p))
  {
  }

  lemma PlayKeeps<F>(w: World<F>)
    requires Inv(w)
    ensures Inv(PlayerStep(w))
  {
    match w.player {
      case Away =>
      case Counting(_, _, _, _) =>
        CountGoesOn(w);
        hide Inv, Walking, CountTold;
        PlayerMoves(w, PlayerStep(w).player);
      case AtDrop(_) =>
        PollKeeps(w);
        hide Inv;
        PlayerMoves(w.(queue := Poll(w.queue)), Counting(First, 0, 0, 0));
    }
  }

  lemma OtherKeeps<F>(w: World<F>, a: Action<F>)
    requires Inv(w) && !a.Produce? && !a.Play? && !a.Consume?
    ensures Inv(Act(w, a))
  {
    hide InOrder;
    OrderAlike(w, Act(w, a));
  }

  lemma ActKeeps<F>(w: World<F>, a: Action<F>)
    requires Inv(w)
    ensures Inv(Act(w, a))
  {
    hide Inv, ProducerStep, PlayerStep;
    match a {
      case Produce => ProduceKeeps(w);
      case Play => PlayKeeps(w);
      case Consume => ConsumeKeeps(w);
      case _ => OtherKeeps(w, a);
    }
  }

  lemma {:induction false} InvHolds<F>(max: nat, acts: seq<Action<F>>)
    ensures Inv(After(max, acts)) && After(max, acts).max == max
    decreases |acts|
  {
    hide Inv;
    if acts != [] {
      InvHolds(max, acts[..|acts| - 1]);
      ActKeeps(After(max, acts[..|acts| - 1]), acts[|acts| - 1]);
    } else {
      StartInv<F>(max);
    }
  }

  lemma StartInv<F>(max: nat)
    ensures Inv(Start<F>(max))
  {
  }

  /** In every interleaving: the queue never holds more than its bound, although the producer's
      size() is a walk that consumers overtake; it is a contiguous run of the newest frames added
      since the last clear; and the frames delivered, to all consumers together, are frames that
      were added, in the order they were added, none of them twice. */
  lemma QueueIsNewest<F>(max: nat, acts: seq<Action<F>>)
    ensures var w := After(max, acts);
            && |w.queue| <= max
            && w.cleared + |w.queue| <= |w.accepted|
            && w.queue == w.accepted[|w.accepted| - |w.queue|..]
            && |w.places| == |w.delivered|
            && (forall i :: 0 <= i < |w.places| ==>
                  w.places[i] < |w.accepted| - |w.queue| && w.accepted[w.places[i]] == w.delivered[i])
            && (forall i, j :: 0 <= i < j < |w.places| ==> w.places[i] < w.places[j])
  {
    InvHolds(max, acts);
  }

  /** The video queue holds at most 4 frames, the audio queue at most 80. */
  lemma QueuesAreBounded<F>(video: seq<Action<F>>, audio: seq<Action<F>>)
    ensures |After(MAX_QUEUED_FRAMES, video).queue| <= 4
    ensures |After(MAX_QUEUED_AUDIO_FRAMES, audio).queue| <= 80
  {
    InvHolds(MAX_QUEUED_FRAMES, video);
    InvHolds(MAX_QUEUED_AUDIO_FRAMES, audio);
  }

  // ------------------------------------------------------- where every frame has gone

  /** The frames that arrived at an idle producer, in order. */
  function Arrived<F>(max: nat, acts: seq<Action<F>>): seq<F>
    decreases |acts|
  {
    if acts == [] then []
    else
      var w, a := After(max, acts[..|acts| - 1]), acts[|acts| - 1];
      Arrived(max, acts[..|acts| - 1]) + (if a.Arrive? && w.producer.Idle? then [a.f] else [])
  }

  /** The frame the producer has in hand. */
  function InHand<F>(p: Producer<F>): seq<F> {
    match p
    case Sizing(f, _) => [f]
    case AtPoll(f) => [f]
    case AtAdd(f) => [f]
    case _ => []
  }

  /** An action that takes a frame out of the queue and delivers it to nobody: the producer making
      room or clearing, or the player dropping a stale one. */
  predicate Drops<F>(w: World<F>, a: Action<F>) {
    w.queue != [] && ((a.Produce? && (w.producer.AtPoll? || w.producer.Clearing?)) || (a.Play? && w.player.AtDrop?))
  }

  function DropCount<F>(max: nat, acts: seq<Action<F>>): nat
    decreases |acts|
  {
    if acts == [] then 0
    else
      var w, a := After(max, acts[..|acts| - 1]), acts[|acts| - 1];
      DropCount(max, acts[..|acts| - 1]) + (if Drops(w, a) then 1 else 0)
  }

  lemma OneStepCounts<F>(w: World<F>, a: Action<F>)
    requires QueueTold(w)
    ensures var v := Act(w, a);
            && v.accepted + InHand(v.producer)
               == w.accepted + InHand(w.producer) + (if a.Arrive? && w.producer.Idle? then [a.f] else [])
            && |v.accepted| - |v.queue| - |v.delivered|
               == |w.accepted| - |w.queue| - |w.delivered| + (if Drops(w, a) then 1 else 0)
  {
  }

  /** In every interleaving every frame that arrived is accounted for: it was added, or is the one in
      the producer's hand; and of those added each is queued, was delivered, or was dropped to
      make room, by a clear or as stale. */
  lemma {:induction false} FramesAccountedFor<F>(max: nat, acts: seq<Action<F>>)
    ensures var w := After(max, acts);
            && Arrived(max, acts) == w.accepted + InHand(w.producer)
            && |w.accepted| == |w.queue| + |w.delivered| + DropCount(max, acts)
    decreases |acts|
  {
    hide Act, Drops, InOrder, WalksTold, InHand;
    if acts != [] {
      FramesAccountedFor(max, acts[..|acts| - 1]);
      InvHolds(max, acts[..|acts| - 1]);
      OneStepCounts(After(max, acts[..|acts| - 1]), acts[|acts| - 1]);
    } else {
      NoneYet<F>(max);
    }
  }

  lemma NoneYet<F>(max: nat)
    ensures InHand(Start<F>(max).producer) == []
  {
  }

  // ------------------------------------------------------------- the stale-frame loop

  /** The player's walk is about to answer. */
  predicate Answering<F>(w: World<F>) {
    w.player.Counting? && w.player.walk.Link? && w.player.walk.node + 1 >= |w.accepted|
  }

  /** In every interleaving the player's size() answers with the frames queued when it set out (at
      most four), plus those added while it walked, less those gone before it looked. So its loop
      drops a frame if and only if more frames were added during the walk than the queue had room
      for at its start and the walk missed; never when none is added. */
  lemma StaleDropIff<F>(acts: seq<Action<F>>)
    requires Answering(After(4, acts))
    ensures var w := After(4, acts); var p := w.player;
            && p.since <= p.start <= |w.accepted|
            && var queued, added := p.start - p.since, |w.accepted| - p.start;
            && queued <= 4
            && p.walk.count == queued + added - p.missed && p.walk.count <= 4 + added
            && (Act(w, Play).player.AtDrop? <==> added > 4 - queued + p.missed)
  {
    InvHolds(4, acts);
  }

  /** The same action, again and again. */
  function Repeat<F>(w: World<F>, a: Action<F>, n: nat): World<F>
    decreases n
  {
    if n == 0 then w else Repeat(Act(w, a), a, n - 1)
  }

  lemma {:induction false} RepeatSum<F>(w: World<F>, a: Action<F>, m: nat, n: nat)
    ensures Repeat(Repeat(w, a, m), a, n) == Repeat(w, a, m + n)
    decreases m
  {
    if m > 0 { RepeatSum(Act(w, a), a, m - 1, n); }
  }

  function Times<F>(a: Action<F>, n: nat): seq<Action<F>> {
    if n == 0 then [] else Times(a, n - 1) + [a]
  }

  lemma {:induction false} AfterRepeat<F>(max: nat, acts: seq<Action<F>>, a: Action<F>, n: nat)
    ensures Repeat(After(max, acts), a, n) == After(max, acts + Times(a, n))
    decreases n
  {
    hide Act, After;
    if n == 0 {
      assert acts + [] == acts;
    } else {
      AfterRepeat(max, acts, a, n - 1);
      AfterSnoc(max, acts + Times(a, n - 1), a);
      assert acts + Times(a, n - 1) + [a] == acts + Times(a, n);
      RepeatSum(After(max, acts), a, n - 1, 1);
      RepeatOnce(Repeat(After(max, acts), a, n - 1), a);
    }
  }

  lemma RepeatOnce<F>(w: World<F>, a: Action<F>)
    ensures Repeat(w, a, 1) == Act(w, a)
  {
    hide Act;
    assert Repeat(Act(w, a), a, 0) == Act(w, a);
  }

  lemma AfterSnoc<F>(max: nat, acts: seq<Action<F>>, a: Action<F>)
    ensures After(max, acts + [a]) == Act(After(max, acts), a)
  {
    hide Act;
    assert (acts + [a])[..|acts|] == acts;
  }

  function Verdict<F>(w: World<F>, f: F, count: nat): Producer<F> {
    if count >= w.max then AtPoll(f) else AtAdd(f)
  }

  /** Undisturbed, the producer's walk counts what is there. */
  lemma {:induction false} WalkAlone<F>(w: World<F>, f: F, p: nat, c: nat)
    requires w.producer == Sizing(f, Look(p, c)) && Head(w) <= p < |w.accepted|
    ensures Repeat(w, Produce, 2 * (|w.accepted| - p)) == w.(producer := Verdict(w, f, c + (|w.accepted| - p)))
    decreases |w.accepted| - p
  {
    var v := Act(w, Produce);
    var u := Act(v, Produce);
    assert v == w.(producer := Sizing(f, Link(p, c + 1)));
    if p + 1 < |w.accepted| {
      WalkAlone(u, f, p + 1, c + 1);
      assert Repeat(w, Produce, 2) == u by { assert Repeat(v, Produce, 1) == Repeat(u, Produce, 0); }
      RepeatSum(w, Produce, 2, 2 * (|w.accepted| - p - 1));
    } else {
      assert Repeat(v, Produce, 1) == Repeat(u, Produce, 0) == u;
    }
  }

  lemma SizeAlone<F>(w: World<F>) returns (n: nat)
    requires w.producer.Sizing? && w.producer.walk.First? && |w.queue| <= |w.accepted|
    ensures Repeat(w, Produce, n) == w.(producer := Verdict(w, w.producer.f, |w.queue|))
  {
    var v := Act(w, Produce);
    n := 1 + 2 * |w.queue|;
    if w.queue == [] {
      assert Repeat(v, Produce, 0) == v;
    } else {
      WalkAlone(v, w.producer.f, Head(w), 0);
    }
  }

  /** The newest `max` frames. */
  function Newest<F>(q: seq<F>, max: nat): seq<F> {
    if |q| > max then q[|q| - max..] else q
  }

  /** Undisturbed, the producer's loop ends with the frame added and only what is over the bound
      dropped: from any queue, the newest `max` frames remain, and nothing else has changed. */
  lemma {:induction false} ProducerFinishes<F>(w: World<F>)
    requires w.producer.Sizing? && w.producer.walk.First? && |w.queue| <= |w.accepted| && w.max > 0
    ensures exists n: nat :: Repeat(w, Produce, n)
              == w.(producer := Idle, accepted := w.accepted + [w.producer.f],
                    queue := Newest(w.queue + [w.producer.f], w.max))
    decreases |w.queue|
  {
    var f := w.producer.f;
    var n := SizeAlone(w);
    var v := Repeat(w, Produce, n);
    var u := Act(v, Produce);
    assert Repeat(v, Produce, 1) == Repeat(u, Produce, 0) == u;
    RepeatSum(w, Produce, n, 1);
    if |w.queue| >= w.max {
      assert u == w.(queue := w.queue[1..]);
      ProducerFinishes(u);
      var m: nat :| Repeat(u, Produce, m)
                    == u.(producer := Idle, accepted := u.accepted + [f], queue := Newest(u.queue + [f], u.max));
      RepeatSum(w, Produce, n + 1, m);
      assert Newest(u.queue + [f], w.max) == Newest(w.queue + [f], w.max);
    }
  }

  /** What the player does with an answer. */
  function Answer(count: nat): Player {
    if count > MAX_STALE_FRAMES then AtDrop(count) else Away
  }

  /** From its middle on, a walk nobody disturbs counts every node left. */
  lemma {:induction false} PlayAlone<F>(w: World<F>, p: nat, c: nat) returns (n: nat)
    requires w.player.Counting? && w.player.walk == Link(p, c) && Head(w) <= p + 1 <= |w.accepted|
    ensures Repeat(w, Play, n) == w.(player := Answer(c + (|w.accepted| - p - 1)))
    decreases |w.accepted| - p
  {
    var v := Act(w, Play);
    if p + 1 < |w.accepted| {
      var u := Act(v, Play);
      n := PlayAlone(u, p + 1, c + 1);
      assert Repeat(w, Play, n + 2) == Repeat(v, Play, n + 1) == Repeat(u, Play, n);
      n := n + 2;
    } else {
      n := 1;
      assert Repeat(v, Play, 0) == v;
    }
  }

  /** A walk that has to start over, undisturbed, counts exactly what the queue holds: the producer's
      and the player's. */
  lemma ProducerRecounts<F>(w: World<F>)
    requires w.producer.Sizing? && Dropped(w, w.producer.walk) && |w.queue| <= |w.accepted|
    ensures exists n: nat :: Repeat(Act(w, ProducerRestarts), Produce, n) == w.(producer := Verdict(w, w.producer.f, |w.queue|))
  {
    var n := SizeAlone(Act(w, ProducerRestarts));
  }

  lemma PlayerRecounts<F>(w: World<F>)
    requires w.player.Counting? && Dropped(w, w.player.walk) && |w.queue| <= |w.accepted|
    ensures exists n: nat :: Repeat(Act(w, PlayerRestarts), Play, n)
                             == w.(player := if |w.queue| > 4 then AtDrop(|w.queue|) else Away)
  {
    var v := Act(w, PlayerRestarts);
    var u := Act(v, Play);
    if w.queue == [] {
      RepeatOnce(v, Play);
    } else {
      var t := Act(u, Play);
      assert t.player.walk == Link(Head(w), 1);
      var n := PlayAlone(t, Head(w), 1);
      assert Repeat(v, Play, n + 2) == Repeat(u, Play, n + 1) == Repeat(t, Play, n);
    }
  }

  /** One frame after another, undisturbed, the queue fills. */
  lemma {:induction false} Fill<F>(f: F, k: nat) returns (acts: seq<Action<F>>)
    requires k <= MAX_QUEUED_FRAMES
    ensures var w := After(MAX_QUEUED_FRAMES, acts); |w.queue| == k && w.producer.Idle? && w.player.Away?
  {
    if k == 0 {
      acts := [];
    } else {
      acts := Fill(f, k - 1);
      InvHolds(MAX_QUEUED_FRAMES, acts);
      acts := ArriveAlone(MAX_QUEUED_FRAMES, acts, f);
    }
  }

  lemma ArriveAlone<F>(max: nat, acts: seq<Action<F>>, f: F) returns (all: seq<Action<F>>)
    requires max > 0 && After(max, acts).producer.Idle?
    ensures var w := After(max, acts);
            After(max, all) == w.(accepted := w.accepted + [f], queue := Newest(w.queue + [f], max))
  {
    var w := After(max, acts);
    InvHolds(max, acts);
    AfterSnoc(max, acts, Arrive(f));
    var v := After(max, acts + [Arrive(f)]);
    assert v == w.(producer := Sizing(f, First));
    ProducerFinishes(v);
    var n: nat :| Repeat(v, Produce, n)
                  == v.(producer := Idle, accepted := v.accepted + [f], queue := Newest(v.queue + [f], v.max));
    AfterRepeat(max, acts + [Arrive(f)], Produce, n);
    all := acts + [Arrive(f)] + Times(Produce, n);
  }

  /** The player sets out on a full queue and counts its oldest frame. */
  lemma CountOldest<F>(acts: seq<Action<F>>)
    requires var w := After(MAX_QUEUED_FRAMES, acts); w.player.Away? && w.queue != []
    ensures var w := After(MAX_QUEUED_FRAMES, acts);
            After(MAX_QUEUED_FRAMES, acts + [Check] + [Play] + [Play])
            == w.(player := Counting(Link(Head(w), 1), Head(w), |w.accepted|, 0))
  {
    hide After, InOrder, WalksTold, Act;
    InvHolds(MAX_QUEUED_FRAMES, acts);
    AfterSnoc(MAX_QUEUED_FRAMES, acts, Check);
    AfterSnoc(MAX_QUEUED_FRAMES, acts + [Check], Play);
    AfterSnoc(MAX_QUEUED_FRAMES, acts + [Check] + [Play], Play);
    ThreeSteps(After(MAX_QUEUED_FRAMES, acts));
  }

  lemma ThreeSteps<F>(w: World<F>)
    requires w.player.Away? && w.queue != [] && |w.queue| <= |w.accepted|
    ensures Act(Act(Act(w, Check), Play), Play) == w.(player := Counting(Link(Head(w), 1), Head(w), |w.accepted|, 0))
  {
  }

  /** The loop's body does run: with a full queue, a frame that arrives after the player's size()
      has counted the oldest one makes it count five, and a frame is dropped although the queue
      holds only four. */
  lemma StaleDropCanRun<F>(f: F)
    ensures exists acts: seq<Action<F>> :: var w := After(MAX_QUEUED_FRAMES, acts);
              && w.player == AtDrop(5) && |w.queue| == 4 && |Act(w, Play).queue| == 3
  {
    hide After;
    var full := Fill(f, MAX_QUEUED_FRAMES);
    var w0 := After(MAX_QUEUED_FRAMES, full);
    InvHolds(MAX_QUEUED_FRAMES, full);
    CountOldest(full);
    var arrived := ArriveAlone(MAX_QUEUED_FRAMES, full + [Check] + [Play] + [Play], f);
    var w := After(MAX_QUEUED_FRAMES, arrived);
    assert Head(w) == Head(w0) + 1 && |w.accepted| == Head(w0) + 5;
    var n := PlayAlone(w, Head(w0), 1);
    AfterRepeat(MAX_QUEUED_FRAMES, arrived, Play, n);
    var acts := arrived + Times(Play, n);
    assert After(MAX_QUEUED_FRAMES, acts) == w.(player := AtDrop(5));
  }

  // ------------------------------------------------------------------------ clearing

  /** Undisturbed, the clear of an idle producer ends with an empty queue and nothing else changed. */
  lemma ClearFinishes<F>(w: World<F>)
    requires w.producer.Idle?
    ensures Repeat(Act(w, Clear), Produce, |w.queue| + 1) == w.(queue := [], cleared := |w.accepted|)
  {
    ClearGoesOn(Act(w, Clear));
  }

  lemma {:induction false} ClearGoesOn<F>(w: World<F>)
    requires w.producer.Clearing?
    ensures Repeat(w, Produce, |w.queue| + 1) == w.(producer := Idle, queue := [], cleared := |w.accepted|)
    decreases |w.queue|
  {
    if w.queue != [] {
      ClearGoesOn(Act(w, Produce));
    } else {
      RepeatOnce(w, Produce);
    }
  }

  /** The places `now` extend `was`, and the new ones are at least h. */
  ghost predicate GrowsFrom(was: seq<nat>, now: seq<nat>, h: nat) {
    && |was| <= |now| && now[..|was|] == was
    && forall i :: |was| <= i < |now| ==> now[i] >= h
  }

  lemma GrowsNext(was: seq<nat>, now: seq<nat>, h: nat, p: nat)
    requires GrowsFrom(was, now, h) && p >= h
    ensures GrowsFrom(was, now + [p], h)
  {
    assert (now + [p])[..|was|] == now[..|was|];
  }

  /** What is delivered later is no older than the oldest frame queued now. */
  ghost predicate DeliversFrom<F>(w: World<F>, v: World<F>) {
    Head(w) <= Head(v) && GrowsFrom(w.places, v.places, Head(w))
  }

  lemma DeliversNext<F>(w: World<F>, v: World<F>, a: Action<F>)
    requires DeliversFrom(w, v) && QueueTold(v)
    ensures DeliversFrom(w, Act(v, a))
  {
    HeadGrows(v, a);
    GrowsNext(w.places, v.places, Head(w), Head(v));
    hide Act, Head, GrowsFrom, QueueTold;
  }

  lemma HeadGrows<F>(v: World<F>, a: Action<F>)
    requires QueueTold(v)
    ensures Head(Act(v, a)) >= Head(v)
    ensures Act(v, a).places == v.places || Act(v, a).places == v.places + [Head(v)]
  {
  }

  lemma {:induction false} DeliversLater<F>(max: nat, acts: seq<Action<F>>, more: seq<Action<F>>)
    ensures DeliversFrom(After(max, acts), After(max, acts + more))
    decreases |more|
  {
    hide Act, DeliversFrom, Head, InOrder, WalksTold;
    if more == [] {
      assert acts + more == acts;
      DeliversSame(After(max, acts));
    } else {
      var n := |more| - 1;
      DeliversLater(max, acts, more[..n]);
      InvHolds(max, acts + more[..n]);
      AfterSnoc(max, acts + more[..n], more[n]);
      assert acts + more[..n] + [more[n]] == acts + more;
      DeliversNext(After(max, acts), After(max, acts + more[..n]), more[n]);
    }
  }

  lemma DeliversSame<F>(w: World<F>)
    ensures DeliversFrom(w, w)
  {
    assert w.places[..|w.places|] == w.places;
  }

  /** In every interleaving, the step by which a clear ends finds the queue empty, and no frame that
      had been added by then is delivered afterwards: nothing of a lost connection is ever played
      after it. */
  lemma ClearEnds<F>(max: nat, acts: seq<Action<F>>, more: seq<Action<F>>, i: nat)
    requires After(max, acts).producer.Clearing? && After(max, acts + [Produce]).producer.Idle?
    ensures var w, v := After(max, acts), After(max, acts + [Produce] + more);
            && w.queue == [] && After(max, acts + [Produce]).cleared == |w.accepted|
            && |w.places| <= |v.places| && v.places[..|w.places|] == w.places
            && (|w.places| <= i < |v.places| ==> v.places[i] >= |w.accepted|)
  {
    InvHolds(max, acts);
    AfterSnoc(max, acts, Produce);
    hide After;
    DeliversLater(max, acts + [Produce], more);
  }
}
