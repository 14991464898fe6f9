/**
 The player of opensl_bridge.c with its linked lists: a method for each region
 that runs under the player's lock, against its step in SlModel.
 */
module SlPlayer {
  import opened Wrappers
  import opened SlModel
  import opened SlRuns

  class AudioBuffer {
    var next: AudioBuffer?
    /** As long as its capacity; the first size bytes are those of an Enqueue. */
    var data: Bytes
    var size: nat
    var offset: nat

    constructor ()
      ensures next == null && data == [] && size == 0 && offset == 0
    {
      next, data, size, offset := null, [], 0, 0;
    }

    ghost function Value(): Chunk
      reads `data, `size, `offset
    {
      Chunk(if size <= |data| then data[..size] else data, offset)
    }

    ghost predicate Playable()
      reads `data, `size, `offset
    {
      offset < size <= |data|
    }
  }

  datatype EnqueueResult = Tried(outcome: Outcome) | ParameterInvalid | NotRealized | MemoryFailure

  function At(list: seq<AudioBuffer>, i: nat): AudioBuffer? {
    if i < |list| then list[i] else null
  }

  ghost predicate Linked(list: seq<AudioBuffer>)
    reads list
  {
    forall i :: 0 <= i < |list| ==> list[i].next == At(list, i + 1)
  }

  ghost function Values(list: seq<AudioBuffer>): (chunks: seq<Chunk>)
    reads list
    ensures |chunks| == |list|
    ensures forall i :: 0 <= i < |list| ==> chunks[i] == list[i].Value()
  {
    if list == [] then [] else [list[0].Value()] + Values(list[1..])
  }

  twostate lemma SameValues(list: seq<AudioBuffer>)
    requires forall b :: b in list ==> b.data == old(b.data) && b.size == old(b.size) && b.offset == old(b.offset)
    ensures Values(list) == old(Values(list))
  {
    forall i | 0 <= i < |list|
      ensures list[i].Value() == old(list[i].Value())
    {
      assert list[i] in list;
    }
  }

  lemma ValuesSound(list: seq<AudioBuffer>)
    requires forall b :: b in list ==> b.Playable()
    ensures ChunksSound(Values(list))
  {
    forall i | 0 <= i < |list|
      ensures Values(list)[i].Sound()
    {
      assert list[i] in list;
    }
  }

  // ---- The two lists ----

  ghost predicate QueueList(head: AudioBuffer?, tail: AudioBuffer?, list: seq<AudioBuffer>)
    reads list
  {
    && Linked(list) && head == At(list, 0)
    && tail == (if list == [] then null else list[|list| - 1])
    && (forall b :: b in list ==> b.Playable())
  }

  ghost predicate FreeList(head: AudioBuffer?, list: seq<AudioBuffer>)
    reads list
  {
    Linked(list) && head == At(list, 0) && forall b :: b in list ==> b.size == 0 && b.offset == 0
  }

  twostate lemma LinkedKept(list: seq<AudioBuffer>)
    requires old(Linked(list)) && forall b :: b in list ==> b.next == old(b.next)
    ensures Linked(list)
  {
    forall i | 0 <= i < |list|
      ensures list[i].next == At(list, i + 1)
    {
      assert list[i] in list;
    }
  }

  twostate lemma QueueKept(new head: AudioBuffer?, new tail: AudioBuffer?, list: seq<AudioBuffer>)
    requires old(allocated(head)) && old(allocated(tail)) && old(QueueList(head, tail, list))
    requires forall b :: b in list ==> unchanged(b)
    ensures QueueList(head, tail, list) && Values(list) == old(Values(list))
  {
    hide Linked, Values;
    LinkedKept(list);
    SameValues(list);
  }

  twostate lemma FreeKept(new head: AudioBuffer?, list: seq<AudioBuffer>)
    requires old(allocated(head)) && old(FreeList(head, list))
    requires forall b :: b in list ==> unchanged(b)
    ensures FreeList(head, list)
  {
    hide Linked;
    LinkedKept(list);
  }

  lemma FreeTail(head: AudioBuffer?, list: seq<AudioBuffer>)
    requires FreeList(head, list) && list != []
    ensures head == list[0] && FreeList(list[0].next, list[1..])
  {
    assert forall i :: 0 <= i < |list| - 1 ==> list[1..][i] == list[i + 1];
  }

  lemma FreeCons(b: AudioBuffer, head: AudioBuffer?, list: seq<AudioBuffer>)
    requires FreeList(head, list) && b.next == head && b.size == 0 && b.offset == 0
    ensures FreeList(b, [b] + list)
  {
    var longer := [b] + list;
    forall i | 0 <= i < |longer|
      ensures longer[i].next == At(longer, i + 1)
    {
      assert i > 0 ==> longer[i] == list[i - 1];
    }
  }

  lemma QueueTail(head: AudioBuffer?, tail: AudioBuffer?, list: seq<AudioBuffer>)
    requires QueueList(head, tail, list) && list != []
    ensures head == list[0] && list[0].Playable()
    ensures QueueList(list[0].next, if |list| == 1 then null else tail, list[1..])
    ensures (list[0].next == null) == (|list| == 1)
    ensures Values(list) == [list[0].Value()] + Values(list[1..])
  {
    hide Values, AudioBuffer.Playable, AudioBuffer.Value;
    ValuesTail(list);
    forall i | 0 <= i < |list| - 1
      ensures list[1..][i].next == At(list[1..], i + 1)
    {
      assert list[1..][i] == list[i + 1];
    }
    assert list[0] in list;
  }

  lemma ValuesTail(list: seq<AudioBuffer>)
    requires list != []
    ensures Values(list) == [list[0].Value()] + Values(list[1..])
  {
  }

  ghost predicate Distinct(list: seq<AudioBuffer>) {
    forall i, j :: 0 <= i < j < |list| ==> list[i] != list[j]
  }

  /** Every live buffer is on the queue, on the free list or in the hands of one Enqueue, and on one of them only. */
  ghost predicate Partition(queue: seq<AudioBuffer>, free: seq<AudioBuffer>, held: set<AudioBuffer>, live: set<AudioBuffer>) {
    && Distinct(queue) && Distinct(free)
    && (forall b :: b in queue ==> b !in free && b !in held && b in live)
    && (forall b :: b in free ==> b !in held && b in live)
    && (forall b :: b in held ==> b in live)
    && (forall b :: b in live ==> b in queue || b in free || b in held)
  }

  lemma FreeToHeld(queue: seq<AudioBuffer>, free: seq<AudioBuffer>, held: set<AudioBuffer>, live: set<AudioBuffer>)
    requires Partition(queue, free, held, live) && free != []
    ensures Partition(queue, free[1..], held + {free[0]}, live)
  {
  }

  lemma HeldToFree(queue: seq<AudioBuffer>, free: seq<AudioBuffer>, held: set<AudioBuffer>, live: set<AudioBuffer>, b: AudioBuffer)
    requires Partition(queue, free, held, live) && b in held
    ensures Partition(queue, [b] + free, held - {b}, live)
  {
  }

  lemma HeldToQueue(queue: seq<AudioBuffer>, free: seq<AudioBuffer>, held: set<AudioBuffer>, live: set<AudioBuffer>, b: AudioBuffer)
    requires Partition(queue, free, held, live) && b in held
    ensures Partition(queue + [b], free, held - {b}, live)
  {
  }

  lemma QueueToFree(queue: seq<AudioBuffer>, free: seq<AudioBuffer>, held: set<AudioBuffer>, live: set<AudioBuffer>)
    requires Partition(queue, free, held, live) && queue != []
    ensures Partition(queue[1..], [queue[0]] + free, held, live)
  {
    assert queue[0] in queue;
  }

  class AudioPlayer {
    var head: AudioBuffer?
    var tail: AudioBuffer?
    var freeBuffers: AudioBuffer?
    var queuedCount: nat
    const capacity: nat
    var playState: PlayState
    var shutdown: bool
    var callback: Option<nat>
    var generation: nat
    var pending: nat
    var pendingRecovery: nat
    var inFlight: bool
    var inFlightGeneration: nat
    var playedFrames: nat
    var playIndex: nat
    var stats: Stats

    ghost var history: History
    /** The buffers on the two lists, those in the hands of an Enqueue, and all there are. */
    ghost var queue: seq<AudioBuffer>
    ghost var free: seq<AudioBuffer>
    ghost var held: set<AudioBuffer>
    ghost var live: set<AudioBuffer>

    ghost predicate Owned()
      reads `queue, `free, `held, `live
    {
      Partition(queue, free, held, live)
    }

    ghost predicate Lists()
      reads `head, `tail, `freeBuffers, `queue, `free, queue, free
    {
      QueueList(head, tail, queue) && FreeList(freeBuffers, free)
    }

    ghost predicate Valid()
      reads this, queue, free
    {
      Owned() && Lists()
    }

    ghost function View(): Player
      requires Valid()
      reads this, queue, free
      ensures ChunksSound(View().queue)
    {
      ValuesSound(queue);
      Player(Values(queue), queuedCount, capacity, playState, shutdown, callback, generation, pending, pendingRecovery,
                     inFlight, inFlightGeneration, playedFrames, playIndex, stats, history)
    }

    constructor (capacity: nat)
      ensures Valid() && live == {} && View().queue == [] && this.capacity == capacity
    {
      head, tail, freeBuffers, queuedCount, this.capacity := null, null, null, 0, capacity;
      playState, shutdown, callback := Stopped, false, None;
      generation, pending, pendingRecovery, inFlight, inFlightGeneration := 0, 0, 0, false, 0;
      playedFrames, playIndex, stats := 0, 0, Stats(0, 0, 0, 0, 0, 0, 0, 0, 0);
      history := History([], [], [], 0);
      queue, free, held, live := [], [], {}, {};
    }

    predicate IsStale(onWorker: bool)
      reads this
    {
      inFlight && onWorker && inFlightGeneration != generation
    }

    /** Both critical sections of Enqueue begin with this test and its counters. */
    method Admit(onWorker: bool) returns (outcome: Outcome)
      requires Valid()
      modifies `stats
      ensures Valid() && outcome == Refusal(old(View()), onWorker)
      ensures View() == if outcome == Success then old(View()) else Refuse(old(View()), onWorker)
    {
      hide AudioPlayer.Owned, AudioPlayer.Lists, Values, ChunksSound;
      if shutdown || IsStale(onWorker) || queuedCount >= capacity {
        stats := stats.(failures := stats.failures + 1);
        if IsStale(onWorker) {
          stats := stats.(stale := stats.stale + 1);
        }
        return if shutdown || IsStale(onWorker) then PreconditionsViolated else BufferInsufficient;
      }
      outcome := Success;
    }

    /** A free buffer goes into the hands of an Enqueue. */
    method TakeFree() returns (buffer: AudioBuffer)
      requires Valid() && free != []
      modifies `freeBuffers, `free, `held, free`next
      ensures Valid() && View() == old(View())
      ensures buffer == old(free)[0] && free == old(free)[1..] && held == old(held) + {buffer}
      ensures buffer.next == null
    {
      hide Partition, QueueList, FreeList, Values, ChunksSound, AudioBuffer.Value, AudioBuffer.Playable;
      FreeToHeld(queue, free, held, live);
      FreeTail(freeBuffers, free);
      Apart(queue, free, held, live);
      buffer := freeBuffers;
      freeBuffers := buffer.next;
      held := held + {buffer};
      free := free[1..];
      label Popped:
      buffer.next := null;
      QueueKept@Popped(head, tail, queue);
      FreeKept@Popped(freeBuffers, free);
    }

    /** The first critical section of Enqueue. */
    method EnqueueReserve(onWorker: bool) returns (outcome: Outcome, buffer: AudioBuffer?)
      requires Valid()
      modifies `stats, `freeBuffers, `free, `held, free`next
      ensures Valid() && View() == Reserve(old(View()), onWorker)
      ensures outcome == Refusal(old(View()), onWorker)
      ensures live == old(live) && queue == old(queue)
      ensures if buffer == null then held == old(held) && free == old(free)
              else held == old(held) + {buffer} && [buffer] + free == old(free)
      ensures (buffer != null) == (outcome == Success && old(free) != [])
    {
      hide Partition, QueueList, FreeList, Values, Refusal, ChunksSound;
      FreeHead(freeBuffers, free);
      outcome := Admit(onWorker);
      if outcome != Success || freeBuffers == null {
        return outcome, null;
      }
      buffer := TakeFree();
    }

    /** calloc, when the free list had no buffer. */
    method Allocate() returns (buffer: AudioBuffer)
      requires Valid()
      modifies `held, `live
      ensures Valid() && View() == old(View()) && fresh(buffer)
      ensures held == old(held) + {buffer} && live == old(live) + {buffer} && queue == old(queue) && free == old(free)
      ensures buffer.next == null && buffer.data == []
    {
      hide Partition, QueueList, FreeList, Values, ChunksSound;
      buffer := new AudioBuffer();
      NewHeld(queue, free, held, live, buffer);
      held, live := held + {buffer}, live + {buffer};
    }

    /** asm2_sl_recycle_buffer_locked, for the buffer of an Enqueue that failed. */
    method Recycle(buffer: AudioBuffer)
      requires Valid() && buffer in held
      modifies `freeBuffers, `free, `held, buffer
      ensures Valid() && View() == old(View())
      ensures free == [buffer] + old(free) && held == old(held) - {buffer} && queue == old(queue) && live == old(live)
    {
      hide Partition, QueueList, FreeList, Values, ChunksSound, AudioBuffer.Value, AudioBuffer.Playable;
      HeldToFree(queue, free, held, live, buffer);
      Apart(queue, free, held, live);
      buffer.size := 0;
      buffer.offset := 0;
      buffer.next := freeBuffers;
      QueueKept(head, tail, queue);
      FreeKept(freeBuffers, free);
      FreeCons(buffer, freeBuffers, free);
      freeBuffers := buffer;
      free := [buffer] + free;
      held := held - {buffer};
    }

    /** Growing and filling the buffer, outside the lock; a resize that fails recycles it instead. */
    method Fill(buffer: AudioBuffer, bytes: Bytes, resizable: bool) returns (filled: bool)
      requires Valid() && buffer in held && bytes != []
      modifies `freeBuffers, `free, `held, `stats, buffer
      ensures Valid() && queue == old(queue) && live == old(live)
      ensures filled == (resizable || |bytes| <= |old(buffer.data)|)
      ensures if filled then View() == old(View()) && held == old(held) && Holds(buffer, bytes)
              else View() == ResizeFailed(old(View())) && held == old(held) - {buffer}
    {
      hide Partition, QueueList, FreeList, Values, ChunksSound;
      if |buffer.data| < |bytes| && !resizable {
        Recycle(buffer);
        stats := stats.(failures := stats.failures + 1);
        return false;
      }
      Apart(queue, free, held, live);
      buffer.data := bytes + (if |buffer.data| > |bytes| then buffer.data[|bytes|..] else []);
      buffer.size := |bytes|;
      buffer.offset := 0;
      buffer.next := null;
      QueueKept(head, tail, queue);
      FreeKept(freeBuffers, free);
      filled := true;
    }

    ghost predicate Holds(buffer: AudioBuffer, bytes: Bytes)
      reads buffer
    {
      buffer.next == null && buffer.size == |bytes| && buffer.offset == 0 && bytes <= buffer.data
    }

    /** The second critical section of Enqueue. */
    method EnqueuePublish(buffer: AudioBuffer, bytes: Bytes, onWorker: bool) returns (outcome: Outcome)
      requires Valid() && buffer in held && bytes != [] && Holds(buffer, bytes)
      modifies this, buffer, queue`next
      ensures Valid() && View() == Publish(old(View()), onWorker, bytes) && outcome == Refusal(old(View()), onWorker)
      ensures held == old(held) - {buffer} && live == old(live)
      ensures if outcome == Success then queue == old(queue) + [buffer] && free == old(free)
              else queue == old(queue) && free == [buffer] + old(free)
    {
      hide Partition, QueueList, FreeList, Values, Refusal, ChunksSound, Accept, Refuse;
      outcome := Admit(onWorker);
      if outcome != Success {
        Recycle(buffer);
        return;
      }
      AcceptBuffer(buffer, bytes);
    }

    method AcceptBuffer(buffer: AudioBuffer, bytes: Bytes)
      requires Valid() && buffer in held && bytes != [] && Holds(buffer, bytes)
      modifies `head, `tail, `queue, `held, `queuedCount, `stats, `history, queue`next
      ensures Valid() && View() == Accept(old(View()), bytes)
      ensures queue == old(queue) + [buffer] && held == old(held) - {buffer}
    {
      hide Partition, QueueList, FreeList, Values, ChunksSound;
      AppendTail(buffer, bytes);
      queuedCount := queuedCount + 1;
      stats := stats.(serial := stats.serial + 1);
      history := history.(accepted := history.accepted + bytes);
    }

    method AppendTail(buffer: AudioBuffer, bytes: Bytes)
      requires Valid() && buffer in held && bytes != [] && Holds(buffer, bytes)
      modifies `head, `tail, `queue, `held, queue`next
      ensures Valid() && Values(queue) == old(Values(queue)) + [Chunk(bytes, 0)]
      ensures queue == old(queue) + [buffer] && held == old(held) - {buffer}
    {
      hide Partition, QueueList, FreeList, Values, ChunksSound;
      hide AudioBuffer.Value, AudioBuffer.Playable;
      HeldToQueue(queue, free, held, live, buffer);
      Apart(queue, free, held, live);
      QueueDistinct(queue, free, held, live);
      HeldChunk(buffer, bytes);
      LinkTail(buffer);
      queue := queue + [buffer];
      held := held - {buffer};
    }

    lemma HeldChunk(buffer: AudioBuffer, bytes: Bytes)
      requires Holds(buffer, bytes) && bytes != []
      ensures buffer.Value() == Chunk(bytes, 0) && buffer.Playable()
    {
    }

    method LinkTail(buffer: AudioBuffer)
      requires Lists() && buffer !in queue && buffer !in free && buffer.next == null && buffer.Playable()
      requires queue != [] ==> queue[|queue| - 1] !in free && queue[|queue| - 1] !in queue[..|queue| - 1]
      modifies `head, `tail, queue`next
      ensures QueueList(head, tail, queue + [buffer]) && FreeList(freeBuffers, free)
      ensures Values(queue + [buffer]) == old(Values(queue)) + [old(buffer.Value())]
    {
      hide QueueList, FreeList, Values;
      TailIn(head, tail, queue);
      if tail != null {
        tail.next := buffer;
      } else {
        head := buffer;
      }
      QueueGrown(old(head), old(tail), queue, buffer);
      FreeKept(freeBuffers, free);
      tail := buffer;
    }

    /**
     A whole Enqueue that nobody interrupts: it queues or refuses as the model
     does, and leaves no buffer in its own hands.
     */
    method Enqueue(bytes: Bytes, realized: bool, onWorker: bool, resizable: bool) returns (result: EnqueueResult)
      requires Valid()
      modifies this, queue`next, free
      ensures Valid() && held == old(held)
      ensures result == ParameterInvalid <==> bytes == []
      ensures result == NotRealized <==> bytes != [] && !realized
      ensures !result.Tried? && !result.MemoryFailure? ==> View() == old(View())
      ensures result.Tried? ==> result.outcome == Refusal(old(View()), onWorker)
                                && View() == Publish(old(View()), onWorker, bytes)
      ensures result.MemoryFailure? ==> !resizable && View() == ResizeFailed(old(View()))
    {
      hide Valid, View, Publish, Refuse, Refusal;
      if bytes == [] {
        return ParameterInvalid;
      }
      if !realized {
        return NotRealized;
      }
      PublishRefused(View(), onWorker, bytes);
      NotHeld();
      var outcome, buffer := EnqueueReserve(onWorker);
      if outcome != Success {
        return Tried(outcome);
      }
      assert buffer != null ==> ([buffer] + free)[0] == buffer;
      if buffer == null {
        buffer := Allocate();
      }
      var filled := Fill(buffer, bytes, resizable);
      if !filled {
        return MemoryFailure;
      }
      outcome := EnqueuePublish(buffer, bytes, onWorker);
      result := Tried(outcome);
    }

    lemma NotHeld()
      requires Valid()
      ensures forall b :: b in held ==> b in live
      ensures free != [] ==> free[0] !in held
    {
      hide QueueList, FreeList;
    }

    /** Recycling the first queued buffer; the caller moves the head on. */
    method Dequeue(first: AudioBuffer, ghost last: AudioBuffer?) returns (next: AudioBuffer?)
      requires queue != [] && QueueList(first, last, queue) && FreeList(freeBuffers, free) && Owned()
      modifies `freeBuffers, `queue, `free, first
      ensures first == old(queue)[0] && next == old(first.next)
      ensures QueueList(next, if |old(queue)| == 1 then null else last, queue) && FreeList(freeBuffers, free) && Owned()
      ensures queue == old(queue)[1..] && free == [first] + old(free)
      ensures old(Values(queue)) == [old(first.Value())] + Values(queue)
    {
      hide Partition, QueueList, FreeList, Values, ChunksSound;
      QueueToFree(queue, free, held, live);
      Apart(queue, free, held, live);
      QueueTail(first, last, queue);
      next := first.next;
      queue := queue[1..];
      label Before:
      first.size := 0;
      first.offset := 0;
      first.next := freeBuffers;
      QueueKept@Before(next, if |old(queue)| == 1 then null else last, queue);
      FreeKept@Before(freeBuffers, free);
      FreeCons(first, freeBuffers, free);
      freeBuffers := first;
      free := [first] + free;
    }

    /** The loop of asm2_sl_clear_queued_buffers_locked. */
    method RecycleAll()
      requires Valid()
      modifies `freeBuffers, `queue, `free, queue
      ensures queue == [] && Owned() && FreeList(freeBuffers, free)
    {
      hide Partition, QueueList, FreeList, Values, ChunksSound;
      var buffer := head;
      ghost var all, last := queue, tail;
      QueueCount(head, tail, queue);
      while buffer != null
        invariant (buffer == null) == (queue == []) && Owned() && FreeList(freeBuffers, free)
        invariant QueueList(buffer, last, queue)
        invariant forall b :: b in queue ==> b in all
        decreases |queue|
      {
        QueueTail(buffer, last, queue);
        assert buffer in queue;
        ghost var rest := if |queue| == 1 then null else last;
        buffer := Dequeue(buffer, last);
        last := rest;
      }
    }

    /** asm2_sl_clear_queued_buffers_locked. */
    method ClearQueued()
      requires Valid()
      modifies `head, `tail, `freeBuffers, `queuedCount, `queue, `free, queue
      ensures Valid() && queue == [] && View() == Emptied(old(View()))
    {
      hide AudioPlayer.Owned, QueueList, FreeList, Values, ChunksSound, AudioBuffer.Value, AudioBuffer.Playable;
      EmptyQueue();
      RecycleAll();
      head := null;
      tail := null;
      queuedCount := 0;
    }

    /** ++callback_generation, and no pending callbacks. */
    method BumpGeneration()
      requires Valid()
      modifies `generation, `pending, `pendingRecovery, `history
      ensures Valid() && View() == Bump(old(View()))
    {
      hide AudioPlayer.Owned, AudioPlayer.Lists, Values, ChunksSound;
      generation := Next32(generation);
      pending := 0;
      pendingRecovery := 0;
      history := history.(bumps := history.bumps + 1);
    }

    method BufferClear()
      requires Valid()
      modifies this, queue
      ensures Valid() && View() == Clear(old(View())) && held == old(held) && live == old(live)
    {
      hide Partition, QueueList, FreeList, Values, ChunksSound, Remaining, Bump;
      ghost var dropped := |Remaining(View().queue)|;
      ClearQueued();
      playIndex := 0;
      playedFrames := 0;
      history := history.(played := history.played + Flags(dropped, false));
      ghost var cleared := View();
      BumpGeneration();
      ClearIs(old(View()), cleared, dropped);
    }

    lemma ClearIs(p: Player, cleared: Player, dropped: nat)
      requires ChunksSound(p.queue) && dropped == |Remaining(p.queue)|
      requires cleared == p.(queue := [], queuedCount := 0, playIndex := 0, playedFrames := 0,
                             history := p.history.(played := p.history.played + Flags(dropped, false)))
      ensures Bump(cleared) == Clear(p)
    {
      hide Remaining;
    }

    method PlaySetState(state: PlayState)
      requires Valid()
      modifies `generation, `pending, `pendingRecovery, `history, `playState
      ensures Valid() && View() == SetState(old(View()), state)
    {
      hide Partition, QueueList, FreeList, Values, ChunksSound, Bump;
      if state == Stopped {
        BumpGeneration();
      }
      playState := state;
    }

    method BufferRegisterCallback(function_: Option<nat>)
      requires Valid()
      modifies `generation, `pending, `pendingRecovery, `history, `callback
      ensures Valid() && View() == RegisterCallback(old(View()), function_)
    {
      hide AudioPlayer.Owned, AudioPlayer.Lists, Values, ChunksSound, Bump;
      BumpGeneration();
      callback := function_;
    }

    /** The first critical section of asm2_sl_object_destroy. */
    method BeginDestroy()
      requires Valid()
      modifies `generation, `pending, `pendingRecovery, `history, `callback, `shutdown, `playState
      ensures Valid() && View() == ShutDown(old(View()))
    {
      hide AudioPlayer.Owned, AudioPlayer.Lists, Values, ChunksSound, Bump;
      BumpGeneration();
      shutdown := true;
      playState := Stopped;
      callback := None;
    }

    /** What the worker does when its wait may have timed out. */
    method RecoverIfDry()
      requires Valid()
      modifies `pending, `pendingRecovery
      ensures Valid() && View() == WakeUp(old(View()))
    {
      hide Partition, FreeList, QueueList, ChunksSound, Values;
      QueueCount(head, tail, queue);
      if !shutdown && playState == Playing && callback.Some? && head == null && queuedCount == 0
         && pending == 0 && !inFlight {
        pending := 1;
        pendingRecovery := 1;
      }
    }

    method PopOne()
      requires Valid() && pending > 0
      modifies `pending, `pendingRecovery, `stats
      ensures Valid() && View() == PopPending(old(View())) && stats.serial == old(stats.serial)
    {
      hide AudioPlayer.Owned, AudioPlayer.Lists, ChunksSound, Values;
      pending := pending - 1;
      if pendingRecovery != 0 {
        pendingRecovery := pendingRecovery - 1;
        stats := stats.(recoveries := stats.recoveries + 1);
      }
    }

    method EnterCallback()
      requires Valid()
      modifies `inFlight, `inFlightGeneration, `history
      ensures Valid() && View() == StartCallback(old(View())) && inFlight
    {
      hide AudioPlayer.Owned, AudioPlayer.Lists, ChunksSound, Values;
      inFlight := true;
      inFlightGeneration := generation;
      history := history.(bumps := 0);
    }

    /** The worker from the end of its wait to the end of the critical section. */
    method WorkerTake() returns (taken: Option<nat>, enqueueBefore: nat)
      requires Valid() && !inFlight
      modifies `pending, `pendingRecovery, `stats, `inFlight, `inFlightGeneration, `history
      ensures Valid() && View() == Take(old(View()))
      ensures inFlight == taken.Some? && (taken.Some? ==> taken == callback && enqueueBefore == stats.serial)
    {
      hide Partition, FreeList, QueueList, ChunksSound, Values, PopPending, StartCallback;
      taken, enqueueBefore := None, stats.serial;
      if shutdown || pending == 0 {
        return;
      }
      PopOne();
      if callback.Some? {
        taken := callback;
        EnterCallback();
      }
    }

    /** The worker after the callback has returned. */
    method WorkerFinish(enqueueBefore: nat)
      requires Valid() && inFlight
      modifies `stats, `inFlight, `inFlightGeneration
      ensures Valid() && View() == Finish(old(View()), enqueueBefore)
    {
      hide AudioPlayer.Owned, AudioPlayer.Lists, Values, ChunksSound;
      stats := stats.(callbacks := stats.callbacks + 1);
      if stats.serial == enqueueBefore {
        stats := stats.(dry := stats.dry + 1);
      }
      inFlight := false;
      inFlightGeneration := 0;
    }

    // ---- The audio callback ----

    /** memcpy of the next bytes of a buffer. */
    method CopyOut(buffer: AudioBuffer, output: array<byte>, at: nat, count: nat)
      requires buffer.size <= |buffer.data| && buffer.offset + count <= buffer.size && at + count <= output.Length
      modifies output
      ensures output[..] == old(output[..at]) + buffer.data[buffer.offset..buffer.offset + count] + old(output[at + count..])
    {
      var k := 0;
      while k < count
        invariant k <= count
        invariant output[..at] == old(output[..at]) && output[at + count..] == old(output[at + count..])
        invariant output[at..at + k] == buffer.data[buffer.offset..buffer.offset + k]
      {
        output[at + k] := buffer.data[buffer.offset + k];
        k := k + 1;
      }
      assert output[..] == output[..at] + output[at..at + count] + output[at + count..];
    }

    method CreditFrames(count: nat)
      requires Valid()
      modifies `playedFrames, `history
      ensures Valid() && View() == Credit(old(View()), count)
    {
      hide AudioPlayer.Owned, AudioPlayer.Lists, Values, ChunksSound;
      playedFrames := playedFrames + count / 4;
      history := history.(played := history.played + Flags(count, true));
    }

    /** The head buffer is played further, but not to its end. */
    method Advance(count: nat)
      requires Valid() && queue != [] && queue[0].offset + count < queue[0].size
      modifies {queue[0]}`offset
      ensures Valid() && View() == AdvanceHead(old(View()), count)
    {
      hide Partition, QueueList, FreeList, Values, ChunksSound, AudioBuffer.Value, AudioBuffer.Playable;
      QueueTail(head, tail, queue);
      Apart(queue, free, held, live);
      head.offset := head.offset + count;
      QueueMoved(head, tail, queue);
      FreeKept(freeBuffers, free);
    }

    method RemoveHead()
      requires Valid() && queue != []
      modifies `head, `tail, `freeBuffers, `queue, `free, queue
      ensures Valid() && queue == old(queue)[1..] && View() == DropHead(old(View()))
    {
      hide AudioPlayer.Owned, QueueList, FreeList, Values, ChunksSound, AudioBuffer.Value, AudioBuffer.Playable;
      QueueTail(head, tail, queue);
      assert head in queue;
      head := Dequeue(head, tail);
      if head == null {
        tail := null;
      }
    }

    method CountComplete()
      requires Valid()
      modifies `queuedCount, `playIndex, `pending, `stats
      ensures Valid() && View() == CountCompleted(old(View()))
    {
      hide AudioPlayer.Owned, AudioPlayer.Lists, Values, ChunksSound;
      if queuedCount > 0 {
        queuedCount := queuedCount - 1;
      }
      playIndex := Next32(playIndex);
      pending := Next32(pending);
      stats := stats.(completed := stats.completed + 1);
    }

    /** The head buffer has been played to its end. */
    method Complete()
      requires Valid() && queue != []
      modifies `head, `tail, `freeBuffers, `queue, `free, `queuedCount, `playIndex, `pending, `stats, queue
      ensures Valid() && queue == old(queue)[1..] && View() == CompleteHead(old(View()))
    {
      hide Valid, View, CountCompleted, DropHead;
      RemoveHead();
      CountComplete();
    }

    lemma HeadChunk(count: nat)
      requires Valid() && queue != []
      ensures head == queue[0] && View().queue != [] && View().queue[0] == head.Value()
      ensures head.offset < head.size <= |head.data| && |head.Value().bytes| == head.size
      ensures head.offset + count <= head.size ==>
                head.Value().Rest()[..count] == head.data[head.offset..head.offset + count]
    {
      hide Partition, FreeList, ChunksSound;
      assert queue[0] in queue;
    }

    /** One round of the loop of asm2_sl_sdl_audio_callback. */
    method ConsumeRound(output: array<byte>, at: nat, remaining: nat) returns (count: nat)
      requires Valid() && queue != [] && remaining > 0 && at + remaining <= output.Length
      modifies `head, `tail, `freeBuffers, `queue, `free, `queuedCount, `playIndex, `pending, `playedFrames, `stats, `history,
               queue, output
      ensures Valid() && View() == Consume(old(View()), remaining) && count == Count(old(View()), remaining)
      ensures output[..] == old(output[..at]) + old(View()).queue[0].Rest()[..count] + old(output[at + count..])
      ensures queue == old(queue) || queue == old(queue)[1..]
    {
      hide Valid, View, ChunksSound, Credit, AdvanceHead, CompleteHead;
      HeadChunk(0);
      var available := head.size - head.offset;
      count := if available < remaining then available else remaining;
      HeadChunk(count);
      CopyOut(head, output, at, count);
      CreditFrames(count);
      HeadChunk(0);
      if head.offset + count < head.size {
        Advance(count);
      } else {
        Complete();
      }
    }

    /** asm2_sl_sdl_audio_callback: the stream gets what the model plays, and zeros for the rest. */
    method SdlAudioCallback(output: array<byte>)
      requires Valid()
      modifies `head, `tail, `freeBuffers, `queue, `free, `queuedCount, `playIndex, `pending, `playedFrames, `stats, `history,
               queue, output
      ensures Valid() && View() == AudioCallback(old(View()), output.Length).0
      ensures var data := AudioCallback(old(View()), output.Length).1;
              |data| <= output.Length && output[..] == data + Zeros(output.Length - |data|)
    {
      hide Valid, View, ChunksSound, Play, Consume;
      ghost var before := View();
      ActiveView();
      Clean(output);
      if playState != Playing || shutdown {
        LogPull(Pull(false, output.Length, []));
        return;
      }
      var remaining := PlayLoop(output);
      PlayLength(before, output.Length);
      if remaining != 0 {
        CountUnderrun(remaining);
      }
      LogPull(Pull(true, output.Length, Play(before, output.Length).1));
    }

    /** A round, after which what is to be played is one piece shorter. */
    method PlayRound(output: array<byte>, at: nat, remaining: nat, ghost done: Bytes) returns (count: nat, ghost piece: Bytes)
      requires Valid() && queue != [] && remaining > 0 && at + remaining == output.Length && |done| == at
      requires output[..] == done + Zeros(remaining)
      modifies `head, `tail, `freeBuffers, `queue, `free, `queuedCount, `playIndex, `pending, `playedFrames, `stats, `history,
               queue, output
      ensures Valid() && |piece| == count <= remaining && output[..] == done + piece + Zeros(remaining - count)
      ensures Play(old(View()), remaining) == (Play(View(), remaining - count).0, piece + Play(View(), remaining - count).1)
      ensures |View().queue| < |old(View()).queue| || (|View().queue| == |old(View()).queue| && count == remaining)
      ensures queue == old(queue) || queue == old(queue)[1..]
    {
      hide Valid, View, ChunksSound, Play, Consume, Zeros;
      ghost var now := View();
      QueueView();
      PlayUnfolds(now, remaining);
      ConsumeShrinks(now, remaining);
      count := ConsumeRound(output, at, remaining);
      piece := now.queue[0].Rest()[..count];
      Extend(output[..], done, piece, remaining, count);
    }

    /** The loop: it stops when the output is full or the queue is empty. */
    method PlayLoop(output: array<byte>) returns (remaining: nat)
      requires Valid() && output[..] == Zeros(output.Length)
      modifies `head, `tail, `freeBuffers, `queue, `free, `queuedCount, `playIndex, `pending, `playedFrames, `stats, `history,
               queue, output
      ensures Valid() && View() == Play(old(View()), output.Length).0
      ensures remaining + |Play(old(View()), output.Length).1| == output.Length
      ensures output[..] == Play(old(View()), output.Length).1 + Zeros(remaining)
    {
      hide Valid, View, ChunksSound, Play, Consume;
      ghost var before, done, all := View(), [], queue;
      var at := 0;
      remaining := output.Length;
      QueueView();
      while remaining != 0 && head != null
        invariant Valid() && at + remaining == output.Length && |done| == at
        invariant output[..] == done + Zeros(remaining)
        invariant Play(View(), remaining).0 == Play(before, output.Length).0
        invariant done + Play(View(), remaining).1 == Play(before, output.Length).1
        invariant (head == null) == (queue == []) && (queue == [] <==> View().queue == [])
        invariant |queue| <= |all| && queue == all[|all| - |queue|..]
        decreases |View().queue|, remaining
      {
        var count, piece := PlayRound(output, at, remaining, done);
        assert done + (piece + Play(View(), remaining - count).1) == done + piece + Play(View(), remaining - count).1;
        done := done + piece;
        at := at + count;
        remaining := remaining - count;
        QueueView();
      }
      PlayEnds(View(), remaining);
    }

    lemma QueueView()
      requires Valid()
      ensures (head == null) == (queue == []) && (queue == [] <==> View().queue == [])
    {
      hide Partition, FreeList, ChunksSound;
    }

    method LogPull(ghost pull: Pull)
      requires Valid()
      modifies `history
      ensures Valid() && View() == Log(old(View()), pull)
    {
      hide AudioPlayer.Owned, AudioPlayer.Lists, Values, ChunksSound;
      history := history.(pulls := history.pulls + [pull]);
    }

    method CountUnderrun(short: nat)
      requires Valid()
      modifies `stats
      ensures Valid() && View() == Underrun(old(View()), short)
    {
      hide AudioPlayer.Owned, AudioPlayer.Lists, Values, ChunksSound;
      stats := stats.(underruns := stats.underruns + 1, underrunBytes := stats.underrunBytes + short);
    }

    lemma ActiveView()
      requires Valid()
      ensures Active(View()) == (playState == Playing && !shutdown)
    {
      hide AudioPlayer.Owned, AudioPlayer.Lists, Values, ChunksSound;
    }
  }

  function Zeros(n: nat): (b: Bytes)
    ensures |b| == n
  {
    seq(n, _ => 0)
  }

  /** memset. */
  method Clean(output: array<byte>)
    modifies output
    ensures output[..] == Zeros(output.Length)
  {
    var k := 0;
    while k < output.Length
      invariant k <= output.Length && forall i :: 0 <= i < k ==> output[i] == 0
    {
      output[k] := 0;
      k := k + 1;
    }
  }

  lemma PublishRefused(p: Player, onWorker: bool, bytes: Bytes)
    ensures Refusal(p, onWorker) != Success ==> Reserve(p, onWorker) == Publish(p, onWorker, bytes)
    ensures Refusal(p, onWorker) == Success ==> Reserve(p, onWorker) == p
  {
  }

  lemma PlayUnfolds(p: Player, remaining: nat)
    requires ChunksSound(p.queue) && remaining > 0 && p.queue != []
    ensures var count := Count(p, remaining);
            && p.queue[0].offset <= |p.queue[0].bytes| && count <= |p.queue[0].Rest()| && count <= remaining
            && Play(p, remaining).0 == Play(Consume(p, remaining), remaining - count).0
            && Play(p, remaining).1 == p.queue[0].Rest()[..count] + Play(Consume(p, remaining), remaining - count).1
  {
    hide Consume;
    assert p.queue[0].Sound();
  }

  lemma PlayEnds(p: Player, remaining: nat)
    requires ChunksSound(p.queue) && (remaining == 0 || p.queue == [])
    ensures Play(p, remaining) == (p, [])
  {
  }

  lemma {:induction false} PlayLength(p: Player, remaining: nat)
    requires ChunksSound(p.queue)
    ensures |Play(p, remaining).1| <= remaining
    decreases |p.queue|, remaining
  {
    hide Consume, Play;
    if remaining == 0 || p.queue == [] {
      PlayEnds(p, remaining);
    } else {
      PlayUnfolds(p, remaining);
      ConsumeShrinks(p, remaining);
      PlayLength(Consume(p, remaining), remaining - Count(p, remaining));
    }
  }

  lemma Extend(output: Bytes, done: Bytes, piece: Bytes, remaining: nat, count: nat)
    requires count <= remaining && |piece| == count
    requires output == (done + Zeros(remaining))[..|done|] + piece + (done + Zeros(remaining))[|done| + count..]
    ensures output == done + piece + Zeros(remaining - count)
  {
  }

  twostate lemma QueueMoved(new head: AudioBuffer?, new tail: AudioBuffer?, queue: seq<AudioBuffer>)
    requires old(allocated(head)) && old(allocated(tail)) && old(QueueList(head, tail, queue)) && queue != []
    requires queue[0] !in queue[1..] && queue[0].offset < queue[0].size
    requires forall b :: b in queue ==> b.next == old(b.next) && b.data == old(b.data) && b.size == old(b.size)
    requires forall b :: b in queue && b != queue[0] ==> b.offset == old(b.offset)
    ensures QueueList(head, tail, queue)
    ensures Values(queue) == [old(Values(queue))[0].(offset := queue[0].offset)] + old(Values(queue))[1..]
    ensures old(Values(queue))[0].offset == old(queue[0].offset)
  {
    hide Linked, Values;
    assert old(queue[0].Playable());
    LinkedKept(queue);
    ValuesTail(queue);
    SameValues(queue[1..]);
    OldValuesTail(queue);
    assert forall b :: b in queue ==> b == queue[0] || b in queue[1..];
  }

  twostate lemma OldValuesTail(queue: seq<AudioBuffer>)
    requires queue != []
    ensures old(Values(queue))[1..] == old(Values(queue[1..])) && old(Values(queue))[0] == old(queue[0].Value())
  {
  }

  lemma EmptyQueue()
    ensures QueueList(null, null, []) && Values([]) == []
  {
  }

  lemma QueueCount(head: AudioBuffer?, tail: AudioBuffer?, queue: seq<AudioBuffer>)
    requires QueueList(head, tail, queue)
    ensures (head == null) == (queue == []) && (queue == [] <==> Values(queue) == [])
  {
  }

  lemma NewHeld(queue: seq<AudioBuffer>, free: seq<AudioBuffer>, held: set<AudioBuffer>, live: set<AudioBuffer>, b: AudioBuffer)
    requires Partition(queue, free, held, live) && b !in live
    ensures Partition(queue, free, held + {b}, live + {b})
  {
  }

  lemma TailIn(head: AudioBuffer?, tail: AudioBuffer?, queue: seq<AudioBuffer>)
    requires QueueList(head, tail, queue)
    ensures (tail == null) == (queue == []) && (tail != null ==> tail in queue && tail == queue[|queue| - 1])
  {
  }

  /** The last buffer of the queue comes only once, and is not free. */
  lemma QueueDistinct(queue: seq<AudioBuffer>, free: seq<AudioBuffer>, held: set<AudioBuffer>, live: set<AudioBuffer>)
    requires Partition(queue, free, held, live)
    ensures queue != [] ==> queue[|queue| - 1] !in free && queue[|queue| - 1] !in queue[..|queue| - 1]
  {
    assert queue != [] ==> queue[|queue| - 1] in queue;
  }

  twostate lemma QueueGrown(new head: AudioBuffer?, new tail: AudioBuffer?, queue: seq<AudioBuffer>, new b: AudioBuffer)
    requires old(allocated(head)) && old(allocated(tail)) && old(QueueList(head, tail, queue))
    requires b !in queue && b.next == null && b.Playable()
    requires queue != [] ==> tail == queue[|queue| - 1] && tail !in queue[..|queue| - 1] && tail.next == b
    requires forall c :: c in queue ==> c.data == old(c.data) && c.size == old(c.size) && c.offset == old(c.offset)
    requires forall c :: c in queue && c != tail ==> c.next == old(c.next)
    ensures QueueList(if queue == [] then b else head, b, queue + [b])
    ensures Values(queue + [b]) == old(Values(queue)) + [b.Value()]
  {
    hide Values, Linked;
    SameValues(queue);
    ValuesAppend(queue, b);
    LinkedGrown(tail, queue, b);
    assert forall c :: c in queue + [b] ==> c in queue || c == b;
  }

  twostate lemma LinkedGrown(new tail: AudioBuffer?, queue: seq<AudioBuffer>, new b: AudioBuffer)
    requires old(Linked(queue)) && b.next == null
    requires queue != [] ==> tail == queue[|queue| - 1] && tail !in queue[..|queue| - 1] && tail.next == b
    requires forall c :: c in queue && c != tail ==> c.next == old(c.next)
    ensures Linked(queue + [b])
  {
    var longer := queue + [b];
    forall i | 0 <= i < |longer|
      ensures longer[i].next == At(longer, i + 1)
    {
      if i < |queue| - 1 {
        assert queue[i] in queue[..|queue| - 1] && queue[i] in queue;
      }
    }
  }

  lemma {:induction false} ValuesAppend(list: seq<AudioBuffer>, b: AudioBuffer)
    ensures Values(list + [b]) == Values(list) + [b.Value()]
  {
    if list == [] {
      assert list + [b] == [b] && Values([b][1..]) == [];
    } else {
      ValuesAppend(list[1..], b);
      assert (list + [b])[1..] == list[1..] + [b];
    }
  }

  lemma FreeHead(head: AudioBuffer?, list: seq<AudioBuffer>)
    requires FreeList(head, list)
    ensures (head == null) == (list == [])
  {
  }

  lemma Apart(queue: seq<AudioBuffer>, free: seq<AudioBuffer>, held: set<AudioBuffer>, live: set<AudioBuffer>)
    requires Partition(queue, free, held, live)
    ensures free != [] ==> free[0] !in free[1..] && free[0] !in queue
    ensures queue != [] ==> queue[0] !in queue[1..] && queue[0] !in free && queue[0] !in held
    ensures forall b :: b in held ==> b !in queue && b !in free
  {
    assert free != [] ==> free[0] in free;
    assert queue != [] ==> queue[0] in queue;
  }
}
