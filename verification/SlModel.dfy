/**
 The player of opensl_bridge.c as a state machine: one step for each region of
 code that runs under the player's lock, so that every interleaving of guest
 threads, the SDL audio callback and the completion worker is a run of it.
 */
module SlModel {
  import opened Wrappers

  const COUNTERS := 0x1_0000_0000

  datatype PlayState = Stopped | Paused | Playing

  /** A queued buffer: the bytes of one Enqueue, and how many have been played. */
  datatype Chunk = Chunk(bytes: Bytes, offset: nat) {
    predicate Sound() {
      offset < |bytes|
    }

    function Rest(): Bytes
      requires offset <= |bytes|
    {
      bytes[offset..]
    }
  }

  /** One call of the audio callback: what it output before the zeros, and whether the player was playing. */
  datatype Pull = Pull(active: bool, length: nat, data: Bytes)

  /**
   What has happened so far, which no step reads: the bytes of all accepted
   Enqueues in order; for each byte that has left the queue whether it was
   played or dropped; the calls of the audio callback; and how often the
   callback generation has been bumped since the callback in flight was taken.
   */
  datatype History = History(accepted: Bytes, played: seq<bool>, pulls: seq<Pull>, bumps: nat)

  datatype Player = Player(
    queue: seq<Chunk>, queuedCount: nat, capacity: nat, playState: PlayState, shutdown: bool,
    callback: Option<nat>, generation: nat, pending: nat, pendingRecovery: nat,
    inFlight: bool, inFlightGeneration: nat, playedFrames: nat, playIndex: nat,
    stats: Stats, history: History)

  /** The counters that are only reported, and the serial that tells whether a callback has enqueued anything. */
  datatype Stats = Stats(serial: nat, failures: nat, stale: nat, completed: nat, callbacks: nat, dry: nat,
                         recoveries: nat, underruns: nat, underrunBytes: nat)

  function Next32(n: nat): nat {
    (n + 1) % COUNTERS
  }

  /** ++callback_generation, with the callbacks that are pending for the old generation forgotten. */
  function Bump(p: Player): Player {
    p.(generation := Next32(p.generation), pending := 0, pendingRecovery := 0,
       history := p.history.(bumps := p.history.bumps + 1))
  }

  // ---- Enqueue ----

  datatype Outcome = Success | PreconditionsViolated | BufferInsufficient

  /** The test at the start of both critical sections of Enqueue. */
  predicate Stale(p: Player, onWorker: bool) {
    p.inFlight && onWorker && p.inFlightGeneration != p.generation
  }

  function Refusal(p: Player, onWorker: bool): Outcome {
    if p.shutdown || Stale(p, onWorker) then PreconditionsViolated
    else if p.queuedCount >= p.capacity then BufferInsufficient
    else Success
  }

  function Refuse(p: Player, onWorker: bool): Player {
    p.(stats := p.stats.(failures := p.stats.failures + 1,
                         stale := p.stats.stale + if Stale(p, onWorker) then 1 else 0))
  }

  /** The first critical section takes a free buffer, which is no part of this state. */
  function Reserve(p: Player, onWorker: bool): Player {
    if Refusal(p, onWorker) == Success then p else Refuse(p, onWorker)
  }

  function ResizeFailed(p: Player): Player {
    p.(stats := p.stats.(failures := p.stats.failures + 1))
  }

  function Accept(p: Player, bytes: Bytes): Player {
    p.(queue := p.queue + [Chunk(bytes, 0)], queuedCount := p.queuedCount + 1,
       stats := p.stats.(serial := p.stats.serial + 1),
       history := p.history.(accepted := p.history.accepted + bytes))
  }

  /** The second critical section. */
  function Publish(p: Player, onWorker: bool, bytes: Bytes): Player {
    if Refusal(p, onWorker) != Success then Refuse(p, onWorker) else Accept(p, bytes)
  }

  // ---- Clear, state, callback ----

  predicate ChunksSound(queue: seq<Chunk>) {
    forall i :: 0 <= i < |queue| ==> queue[i].Sound()
  }

  /** The bytes still to be played. */
  function Remaining(queue: seq<Chunk>): Bytes
    requires ChunksSound(queue)
  {
    if queue == [] then [] else
      assert queue[0].Sound();
      queue[0].Rest() + Remaining(queue[1..])
  }

  /** The queue after all its buffers have been recycled. */
  function Emptied(p: Player): Player {
    p.(queue := [], queuedCount := 0)
  }

  function Flags(n: nat, played: bool): (s: seq<bool>)
    ensures |s| == n
  {
    seq(n, _ => played)
  }

  function Clear(p: Player): Player
    requires ChunksSound(p.queue)
  {
    var cleared := Bump(p).(queue := [], queuedCount := 0, playIndex := 0, playedFrames := 0);
    cleared.(history := cleared.history.(played := p.history.played + Flags(|Remaining(p.queue)|, false)))
  }

  function SetState(p: Player, state: PlayState): Player {
    (if state == Stopped then Bump(p) else p).(playState := state)
  }

  function RegisterCallback(p: Player, callback: Option<nat>): Player {
    Bump(p).(callback := callback)
  }

  /** The first critical section of destroying the player. */
  function ShutDown(p: Player): Player {
    Bump(p).(shutdown := true, playState := Stopped, callback := None)
  }

  // ---- The audio callback ----

  function Count(p: Player, remaining: nat): nat
    requires ChunksSound(p.queue) && p.queue != []
  {
    var available := |p.queue[0].bytes| - p.queue[0].offset;
    if available < remaining then available else remaining
  }

  function Credit(p: Player, count: nat): Player {
    p.(playedFrames := p.playedFrames + count / 4,
       history := p.history.(played := p.history.played + Flags(count, true)))
  }

  function AdvanceHead(p: Player, count: nat): Player
    requires p.queue != []
  {
    p.(queue := [p.queue[0].(offset := p.queue[0].offset + count)] + p.queue[1..])
  }

  function CountCompleted(p: Player): Player {
    p.(queuedCount := if p.queuedCount > 0 then p.queuedCount - 1 else 0,
       playIndex := Next32(p.playIndex), pending := Next32(p.pending),
       stats := p.stats.(completed := p.stats.completed + 1))
  }

  function DropHead(p: Player): Player
    requires p.queue != []
  {
    p.(queue := p.queue[1..])
  }

  function CompleteHead(p: Player): Player
    requires p.queue != []
  {
    CountCompleted(DropHead(p))
  }

  /** One round of its loop. */
  function Consume(p: Player, remaining: nat): (n: Player)
    requires ChunksSound(p.queue) && p.queue != [] && remaining > 0
    ensures ChunksSound(n.queue)
  {
    var head, count := p.queue[0], Count(p, remaining);
    assert head.Sound();
    if head.offset + count < |head.bytes| then AdvanceHead(Credit(p, count), count)
    else CompleteHead(Credit(p, count))
  }

  /** The loop: the player, and the bytes copied out. */
  function Play(p: Player, remaining: nat): (r: (Player, Bytes))
    requires ChunksSound(p.queue)
    ensures ChunksSound(r.0.queue)
    decreases |p.queue|, remaining
  {
    if remaining == 0 || p.queue == [] then (p, [])
    else
      var count := Count(p, remaining);
      var rest := Play(Consume(p, remaining), remaining - count);
      (rest.0, p.queue[0].Rest()[..count] + rest.1)
  }

  function Active(p: Player): bool {
    p.playState == Playing && !p.shutdown
  }

  function Log(p: Player, pull: Pull): Player {
    p.(history := p.history.(pulls := p.history.pulls + [pull]))
  }

  function Underrun(p: Player, short: nat): Player {
    p.(stats := p.stats.(underruns := p.stats.underruns + 1, underrunBytes := p.stats.underrunBytes + short))
  }

  function AudioCallback(p: Player, length: nat): (r: (Player, Bytes))
    requires ChunksSound(p.queue)
  {
    if !Active(p) then (Log(p, Pull(false, length, [])), [])
    else
      var done := Play(p, length);
      var short := length - |done.1|;
      (Log(if short > 0 then Underrun(done.0, short) else done.0, Pull(true, length, done.1)), done.1)
  }

  // ---- The worker ----

  predicate RecoveryReady(p: Player) {
    !p.shutdown && p.playState == Playing && p.callback.Some? && p.queue == [] && p.queuedCount == 0
    && p.pending == 0 && !p.inFlight
  }

  /** After a wait of the worker, which may have timed out. */
  function WakeUp(p: Player): Player {
    if RecoveryReady(p) then p.(pending := 1, pendingRecovery := 1) else p
  }

  /** From the end of the wait to the end of the critical section; the worker takes a callback if one is pending. */
  function Take(p: Player): Player {
    if p.shutdown || p.pending == 0 then p
    else if p.callback == None then PopPending(p)
    else StartCallback(PopPending(p))
  }

  function PopPending(p: Player): Player
    requires p.pending > 0
  {
    p.(pending := p.pending - 1,
       pendingRecovery := if p.pendingRecovery != 0 then p.pendingRecovery - 1 else 0,
       stats := p.stats.(recoveries := p.stats.recoveries + if p.pendingRecovery != 0 then 1 else 0))
  }

  function StartCallback(p: Player): Player {
    p.(inFlight := true, inFlightGeneration := p.generation, history := p.history.(bumps := 0))
  }

  /** After the callback has returned; before is the serial it started with. */
  function Finish(p: Player, before: nat): Player {
    p.(stats := p.stats.(callbacks := p.stats.callbacks + 1, dry := p.stats.dry + if p.stats.serial == before then 1 else 0),
       inFlight := false, inFlightGeneration := 0)
  }
}
