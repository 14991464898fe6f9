/** What every run of the player keeps: the audio stream, the counters and the generations. */
module SlRuns {
  import opened Wrappers
  import opened SlModel

  // ---- Reading the history ----

  /** Of the bytes that have left the queue, those that were played. */
  function Played(accepted: Bytes, played: seq<bool>): Bytes
    requires |played| <= |accepted|
  {
    if played == [] then []
    else
      var k := |played| - 1;
      Played(accepted, played[..k]) + if played[k] then [accepted[k]] else []
  }

  function Dropped(played: seq<bool>): nat {
    if played == [] then 0 else Dropped(played[..|played| - 1]) + if played[|played| - 1] then 0 else 1
  }

  /** All bytes output other than the zeros that fill a call of the audio callback. */
  function Output(pulls: seq<Pull>): Bytes {
    if pulls == [] then [] else Output(pulls[..|pulls| - 1]) + pulls[|pulls| - 1].data
  }

  /** The zeros output while playing. */
  function Shortfall(pulls: seq<Pull>): nat {
    if pulls == [] then 0
    else
      var last := pulls[|pulls| - 1];
      Shortfall(pulls[..|pulls| - 1]) + if last.active && |last.data| < last.length then last.length - |last.data| else 0
  }

  lemma {:induction false} PlayedMore(accepted: Bytes, played: seq<bool>, k: nat)
    requires |played| + k <= |accepted|
    ensures Played(accepted, played + Flags(k, true)) == Played(accepted, played) + accepted[|played|..|played| + k]
    ensures Dropped(played + Flags(k, true)) == Dropped(played)
  {
    if k == 0 {
      assert played + Flags(0, true) == played;
    } else {
      PlayedMore(accepted, played, k - 1);
      var more := played + Flags(k, true);
      assert more[..|more| - 1] == played + Flags(k - 1, true);
      var end := |played| + k;
      assert accepted[|played|..end] == accepted[|played|..end - 1] + [accepted[end - 1]];
    }
  }

  lemma {:induction false} PlayedDropped(accepted: Bytes, played: seq<bool>, k: nat)
    requires |played| + k <= |accepted|
    ensures Played(accepted, played + Flags(k, false)) == Played(accepted, played)
    ensures Dropped(played + Flags(k, false)) == Dropped(played) + k
  {
    if k == 0 {
      assert played + Flags(0, false) == played;
    } else {
      PlayedDropped(accepted, played, k - 1);
      var more := played + Flags(k, false);
      assert more[..|more| - 1] == played + Flags(k - 1, false);
    }
  }

  lemma {:induction false} PlayedPrefix(accepted: Bytes, more: Bytes, played: seq<bool>)
    requires |played| <= |accepted|
    ensures Played(accepted + more, played) == Played(accepted, played)
  {
    if played != [] {
      PlayedPrefix(accepted, more, played[..|played| - 1]);
    }
  }

  /** Every byte that has left the queue was either played or dropped. */
  lemma {:induction false} PlayedOrDropped(accepted: Bytes, played: seq<bool>)
    requires |played| <= |accepted|
    ensures |Played(accepted, played)| + Dropped(played) == |played|
  {
    if played != [] {
      PlayedOrDropped(accepted, played[..|played| - 1]);
    }
  }

  lemma {:induction false} RemainingAppend(queue: seq<Chunk>, last: Chunk)
    requires ChunksSound(queue) && last.Sound()
    ensures ChunksSound(queue + [last])
    ensures Remaining(queue + [last]) == Remaining(queue) + last.Rest()
  {
    if queue == [] {
      assert queue + [last] == [last] && Remaining([last][1..]) == [];
    } else {
      RemainingAppend(queue[1..], last);
      assert (queue + [last])[1..] == queue[1..] + [last];
    }
  }

  // ---- The invariant ----

  predicate QueueSound(p: Player) {
    && ChunksSound(p.queue) && p.queuedCount == |p.queue| <= p.capacity
  }

  predicate CountersSound(p: Player) {
    && p.pendingRecovery == 0 && p.generation < COUNTERS && p.pending < COUNTERS
    && (p.inFlight ==> p.inFlightGeneration < COUNTERS
                       && p.generation == (p.inFlightGeneration + p.history.bumps) % COUNTERS)
  }

  /** The accepted bytes are those that have left the queue followed by those still in it. */
  predicate StreamSound(p: Player)
    requires ChunksSound(p.queue)
  {
    && |p.history.played| <= |p.history.accepted|
    && p.history.accepted[|p.history.played|..] == Remaining(p.queue)
    && Played(p.history.accepted, p.history.played) == Output(p.history.pulls)
    && p.stats.underrunBytes == Shortfall(p.history.pulls)
  }

  predicate Sound(p: Player) {
    QueueSound(p) && CountersSound(p) && StreamSound(p)
  }

  predicate Initial(p: Player) {
    && p.queue == [] && p.queuedCount == 0 && p.pending == p.pendingRecovery == 0 && !p.inFlight
    && p.generation < COUNTERS && p.stats.underrunBytes == 0 && p.history == History([], [], [], p.history.bumps)
  }

  // ---- Steps ----

  datatype Event =
    | Reserving(onWorker: bool)
    | ResizeFailing
    | Publishing(onWorker: bool, bytes: Bytes)
    | Clearing
    | Setting(state: PlayState)
    | Registering(callback: Option<nat>)
    | ShuttingDown
    | Pulling(length: nat)
    | Working(timedOut: bool)
    | Finishing(serial: nat)

  /** Enqueue refuses an empty buffer before its first critical section; the worker takes callbacks one at a time. */
  predicate Possible(p: Player, e: Event) {
    match e
    case Publishing(_, bytes) => bytes != []
    case Working(_) => !p.inFlight
    case Finishing(_) => p.inFlight
    case _ => true
  }

  function Apply(p: Player, e: Event): Player
    requires ChunksSound(p.queue)
  {
    match e
    case Reserving(onWorker) => Reserve(p, onWorker)
    case ResizeFailing => ResizeFailed(p)
    case Publishing(onWorker, bytes) => Publish(p, onWorker, bytes)
    case Clearing => Clear(p)
    case Setting(state) => SetState(p, state)
    case Registering(callback) => RegisterCallback(p, callback)
    case ShuttingDown => ShutDown(p)
    case Pulling(length) => AudioCallback(p, length).0
    case Working(timedOut) => Take(if timedOut then WakeUp(p) else p)
    case Finishing(serial) => Finish(p, serial)
  }

  lemma BumpSound(p: Player)
    requires Sound(p)
    ensures Sound(Bump(p))
  {
    hide Remaining, Played, Output, Shortfall;
    BumpGeneration(p);
  }

  lemma BumpGeneration(p: Player)
    requires CountersSound(p)
    ensures CountersSound(Bump(p))
  {
    if p.inFlight {
      NextModulo(p.inFlightGeneration, p.history.bumps);
    }
  }

  lemma NextModulo(a: nat, b: nat)
    ensures ((a + b) % COUNTERS + 1) % COUNTERS == (a + (b + 1)) % COUNTERS
  {
  }

  lemma PublishSound(p: Player, onWorker: bool, bytes: Bytes)
    requires Sound(p) && bytes != []
    ensures Sound(Publish(p, onWorker, bytes))
  {
    hide Remaining, Played, Output, Shortfall;
    if Refusal(p, onWorker) == Success {
      var n := Publish(p, onWorker, bytes);
      RemainingAppend(p.queue, Chunk(bytes, 0));
      PlayedPrefix(p.history.accepted, bytes, p.history.played);
      assert n.history.accepted[|p.history.played|..] == p.history.accepted[|p.history.played|..] + bytes;
      assert bytes[0..] == bytes;
    }
  }

  lemma ClearSound(p: Player)
    requires Sound(p)
    ensures Sound(Clear(p))
  {
    hide Remaining, Played, Output, Shortfall, Dropped;
    BumpGeneration(p);
    PlayedDropped(p.history.accepted, p.history.played, |Remaining(p.queue)|);
    NothingRemains();
    assert |p.history.accepted[|p.history.played|..]| == |Remaining(p.queue)|;
  }

  lemma NothingRemains()
    ensures Remaining([]) == []
  {
  }

  // ---- The audio callback ----

  /** One round plays the first bytes of the queue. */
  lemma ConsumeSound(p: Player, remaining: nat)
    requires QueueSound(p) && CountersSound(p) && p.queue != [] && remaining > 0
    ensures var n, count := Consume(p, remaining), Count(p, remaining);
            && QueueSound(n) && CountersSound(n)
            && count <= remaining && count <= |p.queue[0].Rest()|
            && Remaining(p.queue) == p.queue[0].Rest()[..count] + Remaining(n.queue)
            && n.history.accepted == p.history.accepted && n.history.pulls == p.history.pulls
            && n.history.played == p.history.played + Flags(count, true) && n.stats.underrunBytes == p.stats.underrunBytes
  {
    hide Remaining;
    var head, count, n := p.queue[0], Count(p, remaining), Consume(p, remaining);
    assert head.Sound();
    RemainingHead(p.queue);
    if head.offset + count < |head.bytes| {
      var moved := head.(offset := head.offset + count);
      assert n.queue == [moved] + p.queue[1..];
      assert n.queue[1..] == p.queue[1..];
      RemainingHead(n.queue);
      assert head.Rest() == head.Rest()[..count] + moved.Rest();
      Regroup(head.Rest()[..count], moved.Rest(), Remaining(p.queue[1..]));
    } else {
      assert head.Rest()[..count] == head.Rest();
    }
  }

  lemma RemainingHead(queue: seq<Chunk>)
    requires ChunksSound(queue) && queue != []
    ensures queue[0].Sound() && Remaining(queue) == queue[0].Rest() + Remaining(queue[1..])
  {
    assert queue[0].Sound();
  }

  lemma Regroup(a: Bytes, b: Bytes, c: Bytes)
    ensures a + b + c == a + (b + c)
  {
  }

  /** The loop plays the queue in order, as far as it goes. */
  lemma {:induction false} PlaySound(p: Player, remaining: nat)
    requires QueueSound(p) && CountersSound(p)
    ensures var (n, data) := Play(p, remaining);
            && QueueSound(n) && CountersSound(n)
            && Remaining(p.queue) == data + Remaining(n.queue)
            && |data| <= remaining && (|data| < remaining ==> n.queue == [])
            && n.history.accepted == p.history.accepted && n.history.pulls == p.history.pulls
            && n.history.played == p.history.played + Flags(|data|, true) && n.stats.underrunBytes == p.stats.underrunBytes
    decreases |p.queue|, remaining
  {
    hide Remaining, Consume, CountersSound;
    if remaining == 0 || p.queue == [] {
      assert p.history.played == p.history.played + Flags(0, true);
    } else {
      ConsumeSound(p, remaining);
      var count := Count(p, remaining);
      ConsumeShrinks(p, remaining);
      PlaySound(Consume(p, remaining), remaining - count);
      var rest := Play(Consume(p, remaining), remaining - count);
      assert Flags(count, true) + Flags(|rest.1|, true) == Flags(count + |rest.1|, true);
    }
  }

  lemma ConsumeShrinks(p: Player, remaining: nat)
    requires ChunksSound(p.queue) && p.queue != [] && remaining > 0
    ensures |Consume(p, remaining).queue| < |p.queue|
            || (|Consume(p, remaining).queue| == |p.queue| && Count(p, remaining) == remaining)
  {
  }

  lemma Pulled(pulls: seq<Pull>, pull: Pull)
    ensures Output(pulls + [pull]) == Output(pulls) + pull.data
    ensures Shortfall(pulls + [pull])
         == Shortfall(pulls) + if pull.active && |pull.data| < pull.length then pull.length - |pull.data| else 0
  {
    assert (pulls + [pull])[..|pulls|] == pulls;
  }

  lemma IdleSound(p: Player, length: nat)
    requires Sound(p)
    ensures Sound(Log(p, Pull(false, length, [])))
  {
    hide Remaining, Played, Output, Shortfall, ChunksSound;
    Pulled(p.history.pulls, Pull(false, length, []));
  }

  /** After the loop, before the call is logged. */
  lemma PlayedSound(p: Player, n: Player, data: Bytes, length: nat)
    requires Sound(p) && Play(p, length) == (n, data)
    ensures QueueSound(n) && CountersSound(n)
    ensures |data| <= length && data <= Remaining(p.queue) && (|data| < length ==> n.queue == [])
    ensures |n.history.played| <= |n.history.accepted| && n.history.accepted[|n.history.played|..] == Remaining(n.queue)
    ensures Played(n.history.accepted, n.history.played) == Output(p.history.pulls) + data
    ensures n.history.pulls == p.history.pulls && n.stats.underrunBytes == Shortfall(p.history.pulls)
  {
    hide Remaining, Played, Output, Shortfall, ChunksSound, Play, CountersSound;
    SoundChunks(p);
    PlaySound(p, length);
    Suffix(p.history.accepted, p.history.played, data, Remaining(n.queue));
    PlayedMore(p.history.accepted, p.history.played, |data|);
  }

  lemma LoggedSound(n: Player, pulls: seq<Pull>, length: nat, data: Bytes)
    requires QueueSound(n) && CountersSound(n) && |data| <= length
    requires |n.history.played| <= |n.history.accepted| && n.history.accepted[|n.history.played|..] == Remaining(n.queue)
    requires Played(n.history.accepted, n.history.played) == Output(pulls) + data
    requires n.history.pulls == pulls && n.stats.underrunBytes == Shortfall(pulls)
    ensures var short := length - |data|;
            Sound(Log(if short > 0 then Underrun(n, short) else n, Pull(true, length, data)))
  {
    hide Remaining, Played, Output, Shortfall, ChunksSound;
    Pulled(pulls, Pull(true, length, data));
  }

  lemma CallbackSound(p: Player, length: nat)
    requires Sound(p)
    ensures var (n, data) := AudioCallback(p, length);
            && Sound(n) && |data| <= length
            && data <= Remaining(p.queue)
            && (Active(p) && |data| < length ==> n.queue == [])
            && n.stats.underrunBytes == p.stats.underrunBytes + (if Active(p) then length - |data| else 0)
            && n.history.pulls == p.history.pulls + [Pull(Active(p), length, data)]
  {
    hide Remaining, Sound, QueueSound, CountersSound, Played, Output, Shortfall, ChunksSound, Play;
    SoundChunks(p);
    if Active(p) {
      var done := Play(p, length);
      PlayedSound(p, done.0, done.1, length);
      LoggedSound(done.0, p.history.pulls, length, done.1);
      SoundUnderrun(p);
    } else {
      IdleSound(p, length);
    }
  }

  lemma SoundUnderrun(p: Player)
    requires Sound(p)
    ensures p.stats.underrunBytes == Shortfall(p.history.pulls)
  {
  }

  lemma Suffix(accepted: Bytes, played: seq<bool>, data: Bytes, rest: Bytes)
    requires |played| <= |accepted| && accepted[|played|..] == data + rest
    ensures |played| + |data| <= |accepted|
    ensures accepted[|played|..|played| + |data|] == data && accepted[|played| + |data|..] == rest
  {
    assert accepted == accepted[..|played|] + (data + rest);
  }

  // ---- Every run ----

  lemma TakeSound(p: Player, timedOut: bool)
    requires Sound(p) && !p.inFlight
    ensures Sound(Take(if timedOut then WakeUp(p) else p))
  {
    hide Remaining, Played, Output, Shortfall;
  }

  lemma ApplySound(p: Player, e: Event)
    requires Sound(p) && Possible(p, e)
    ensures Sound(Apply(p, e))
  {
    hide Sound, Clear, Publish, AudioCallback, Bump, Take, WakeUp;
    SoundChunks(p);
    match e
    case Publishing(onWorker, bytes) => PublishSound(p, onWorker, bytes);
    case Clearing => ClearSound(p);
    case Setting(state) => BumpSound(p); StateSound(p, state);
    case Registering(callback) => BumpSound(p); CallbackFieldSound(Bump(p), callback);
    case ShuttingDown => BumpSound(p); ShutDownSound(p);
    case Pulling(length) => CallbackSound(p, length);
    case Working(timedOut) => TakeSound(p, timedOut);
    case _ => SimpleSound(p, e);
  }

  lemma SoundChunks(p: Player)
    requires Sound(p)
    ensures ChunksSound(p.queue)
  {
  }

  lemma StateSound(p: Player, state: PlayState)
    requires Sound(p) && Sound(Bump(p))
    ensures Sound(SetState(p, state))
  {
    hide Remaining, Played, Output, Shortfall, Bump;
  }

  lemma CallbackFieldSound(p: Player, callback: Option<nat>)
    requires Sound(p)
    ensures Sound(p.(callback := callback))
  {
    hide Remaining, Played, Output, Shortfall;
  }

  lemma ShutDownSound(p: Player)
    requires Sound(Bump(p))
    ensures Sound(ShutDown(p))
  {
    hide Remaining, Played, Output, Shortfall, Bump;
  }

  lemma SimpleSound(p: Player, e: Event)
    requires Sound(p) && Possible(p, e) && (e.Reserving? || e.ResizeFailing? || e.Finishing?)
    ensures ChunksSound(p.queue) && Sound(Apply(p, e))
  {
    hide Remaining, Played, Output, Shortfall;
  }

  predicate IsRun(first: Player, events: seq<Event>, states: seq<Player>) {
    && |states| == |events| + 1 && states[0] == first && Initial(first)
    && forall k :: 0 <= k < |events| ==>
         ChunksSound(states[k].queue) && Possible(states[k], events[k]) && states[k + 1] == Apply(states[k], events[k])
  }

  lemma {:induction false} RunSound(first: Player, events: seq<Event>, states: seq<Player>, k: nat)
    requires IsRun(first, events, states) && k < |states|
    ensures Sound(states[k])
  {
    hide Sound, Apply, Possible;
    if k == 0 {
      InitialSound(first);
    } else {
      RunSound(first, events, states, k - 1);
      ApplySound(states[k - 1], events[k - 1]);
    }
  }

  lemma InitialSound(p: Player)
    requires Initial(p)
    ensures Sound(p)
  {
  }

  /**
   The stream over any interleaving: what was output, other than zeros, is what
   was accepted, in order, without the bytes that were dropped; every accepted
   byte was played, is queued, or was dropped; and underrun_bytes counts exactly
   the zeros output while playing.
   */
  lemma StreamRefinement(first: Player, events: seq<Event>, states: seq<Player>, k: nat)
    requires IsRun(first, events, states) && k < |states|
    ensures var p := states[k];
            && ChunksSound(p.queue) && |p.history.played| <= |p.history.accepted|
            && Output(p.history.pulls) == Played(p.history.accepted, p.history.played)
            && p.history.accepted[|p.history.played|..] == Remaining(p.queue)
            && |p.history.accepted| == |Output(p.history.pulls)| + |Remaining(p.queue)| + Dropped(p.history.played)
            && p.stats.underrunBytes == Shortfall(p.history.pulls)
  {
    hide Played, Output, Shortfall, Remaining, Dropped;
    RunSound(first, events, states, k);
    var p := states[k];
    PlayedOrDropped(p.history.accepted, p.history.played);
    assert |p.history.accepted| == |p.history.played| + |p.history.accepted[|p.history.played|..]|;
  }

  /** Only Clear drops, and it drops what is queued. */
  lemma OnlyClearDrops(p: Player, e: Event)
    requires Sound(p) && Possible(p, e)
    ensures Dropped(Apply(p, e).history.played)
         == Dropped(p.history.played) + if e == Clearing then |Remaining(p.queue)| else 0
  {
    hide Played, Output, Shortfall, Remaining, Dropped, Play;
    match e
    case Clearing =>
      assert |p.history.accepted[|p.history.played|..]| == |Remaining(p.queue)|;
      PlayedDropped(p.history.accepted, p.history.played, |Remaining(p.queue)|);
    case Pulling(length) =>
      if Active(p) {
        PlaySound(p, length);
        var done := Play(p, length);
        Suffix(p.history.accepted, p.history.played, done.1, Remaining(done.0.queue));
        PlayedMore(p.history.accepted, p.history.played, |done.1|);
      }
    case _ =>
  }

  /** queued_count is the length of the queue and within its capacity, and no recovery is pending outside the lock. */
  lemma QueueBounds(first: Player, events: seq<Event>, states: seq<Player>, k: nat)
    requires IsRun(first, events, states) && k < |states|
    ensures states[k].queuedCount == |states[k].queue| <= states[k].capacity
    ensures states[k].pendingRecovery == 0
  {
    RunSound(first, events, states, k);
  }

  // ---- Stale callbacks ----

  /** How many bumps of the generation there have been since the callback in flight was taken. */
  predicate Bumping(e: Event) {
    e == Clearing || e == Setting(Stopped) || e.Registering? || e == ShuttingDown
  }

  lemma BumpsCounted(p: Player, e: Event)
    requires ChunksSound(p.queue) && Possible(p, e) && p.inFlight
    ensures Apply(p, e).history.bumps == p.history.bumps + if Bumping(e) then 1 else 0
  {
    hide Play;
    if e.Pulling? && Active(p) {
      PlayKeepsBumps(p, e.length);
    }
  }

  lemma {:induction false} PlayKeepsBumps(p: Player, remaining: nat)
    requires ChunksSound(p.queue)
    ensures Play(p, remaining).0.history.bumps == p.history.bumps
    decreases |p.queue|, remaining
  {
    if remaining > 0 && p.queue != [] {
      PlayKeepsBumps(Consume(p, remaining), remaining - Count(p, remaining));
    }
  }

  /**
   A callback's Enqueue is stale exactly when the generation has been bumped
   since, but for a multiple of 2^32 times; so without wrap none is accepted
   after a Clear, Stop, RegisterCallback or shutdown.
   */
  lemma StaleExactly(first: Player, events: seq<Event>, states: seq<Player>, k: nat)
    requires IsRun(first, events, states) && k < |states| && states[k].inFlight
    ensures Stale(states[k], true) <==> states[k].history.bumps % COUNTERS != 0
    ensures states[k].history.bumps < COUNTERS && Refusal(states[k], true) == Success ==> states[k].history.bumps == 0
  {
    RunSound(first, events, states, k);
    ModuloZero(states[k].inFlightGeneration, states[k].history.bumps);
  }

  lemma ModuloZero(a: nat, b: nat)
    requires a < COUNTERS
    ensures (a + b) % COUNTERS == a <==> b % COUNTERS == 0
  {
  }

  /** A run that goes on with n calls of Clear. */
  lemma {:induction false} ClearedRun(first: Player, events: seq<Event>, states: seq<Player>, n: nat)
    returns (more: seq<Event>, longer: seq<Player>)
    requires IsRun(first, events, states)
    ensures IsRun(first, more, longer) && more == events + seq(n, _ => Clearing)
    ensures var p, q := states[|states| - 1], longer[|longer| - 1];
            && q.inFlight == p.inFlight && q.inFlightGeneration == p.inFlightGeneration && q.shutdown == p.shutdown
            && q.capacity == p.capacity && q.callback == p.callback && q.history.bumps == p.history.bumps + n
            && (n > 0 ==> q.queuedCount == 0)
  {
    hide Remaining, Sound, Initial;
    if n == 0 {
      more, longer := events, states;
      assert more == events + seq(0, _ => Clearing);
    } else {
      more, longer := ClearedRun(first, events, states, n - 1);
      var last := longer[|longer| - 1];
      RunSound(first, more, longer, |longer| - 1);
      SoundChunks(last);
      var e2, s2 := more + [Clearing], longer + [Clear(last)];
      OneMore(first, more, longer, Clearing);
      assert e2 == events + seq(n, _ => Clearing);
      more, longer := e2, s2;
    }
  }

  lemma OneMore(first: Player, events: seq<Event>, states: seq<Player>, e: Event)
    requires IsRun(first, events, states)
    requires var last := states[|states| - 1]; ChunksSound(last.queue) && Possible(last, e)
    ensures IsRun(first, events + [e], states + [Apply(states[|states| - 1], e)])
  {
    hide Apply, Possible, ChunksSound, Initial;
    var longer := states + [Apply(states[|states| - 1], e)];
    forall k | 0 <= k <= |events|
      ensures ChunksSound(longer[k].queue) && Possible(longer[k], (events + [e])[k])
      ensures longer[k + 1] == Apply(longer[k], (events + [e])[k])
    {
      if k < |events| {
        assert longer[k] == states[k] && longer[k + 1] == states[k + 1];
      }
    }
  }

  /**
   So a callback that is in flight while Clear is called 2^32 times is taken for
   a fresh one: from any player that wakes up its worker such a run admits its
   Enqueue.
   */
  lemma WrapHidesStaleness(first: Player) returns (events: seq<Event>, states: seq<Player>)
    requires Initial(first) && RecoveryReady(first) && 0 < first.capacity
    ensures IsRun(first, events, states) && events == [Working(true)] + seq(COUNTERS, _ => Clearing)
    ensures var p := states[|states| - 1];
            p.inFlight && p.history.bumps == COUNTERS && Refusal(p, true) == Success
  {
    hide Remaining, Sound;
    var taken := Apply(first, Working(true));
    assert IsRun(first, [Working(true)], [first, taken]);
    assert taken.inFlight && taken.history.bumps == 0 && !taken.shutdown;
    events, states := ClearedRun(first, [Working(true)], [first, taken], COUNTERS);
    StaleExactly(first, events, states, |states| - 1);
  }
}
