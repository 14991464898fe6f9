/** Lookups without the lock, interleaved with publishes and retires at every atomic access. */
module RegistryRuns {
  import opened Wrappers
  import opened Registry

  datatype Query = Query(handle: handle32, owner: nat, kind: Kind)

  /** Where one call of registry_find is: before its first load, about to compare a node, about to load its next field. */
  datatype Reader =
    | Idle
    | Begun(q: Query)
    | Checking(q: Query, at: handle32)
    | Advancing(q: Query, at: handle32)
    | Done(q: Query, result: Option<handle32>)

  /** Where the holder of the registry lock is; Free also stands for nobody holding it. */
  datatype Writer =
    | Free
    | Prepared(h: handle32, node: Node)
    | Stored(h: handle32)
    | Deactivated(h: handle32)
    | Cleared(h: handle32)
    | Unlinked(h: handle32)

  datatype State = State(mem: Memory, writer: Writer, readers: map<nat, Reader>)

  predicate Matches(m: Memory, q: Query, at: handle32)
    requires at in m.nodes
  {
    at == q.handle && m.nodes[at].owner == q.owner && m.nodes[at].kind == q.kind && m.nodes[at].active
  }

  /** What a lookup that happened in one instant would return. */
  function LookUp(m: Memory, q: Query): Option<handle32> {
    if q.handle in m.nodes && Matches(m, q, q.handle) then Some(q.handle) else None
  }

  // ---- Steps ----

  predicate InProgress(reader: Reader) {
    reader.Begun? || reader.Checking? || reader.Advancing?
  }

  /** The node a reader holds was published; nodes are never freed. */
  predicate ReaderSound(m: Memory, reader: Reader) {
    (reader.Checking? || reader.Advancing? ==> reader.at in m.nodes) && (InProgress(reader) ==> reader.q.handle != 0)
  }

  function Follow(q: Query, link: Option<handle32>): Reader {
    match link
    case None => Done(q, None)
    case Some(n) => Checking(q, n)
  }

  /** The next atomic access of a reader. */
  function Advance(m: Memory, reader: Reader): Reader
    requires |m.heads| == BUCKETS && InProgress(reader) && ReaderSound(m, reader)
  {
    match reader
    case Begun(q) => Follow(q, m.heads[Bucket(q.handle)])
    case Checking(q, at) => if Matches(m, q, at) then Done(q, Some(at)) else Advancing(q, at)
    case Advancing(q, at) => Follow(q, m.nodes[at].next)
  }

  predicate Starts(reader: Reader, q: Query) {
    reader == if q.handle == 0 then Done(q, None) else Begun(q)
  }

  predicate Moves(m: Memory, reader: Reader, next: Reader)
    requires |m.heads| == BUCKETS && ReaderSound(m, reader)
  {
    if InProgress(reader) then next == Advance(m, reader) else !next.Idle? && Starts(next, next.q)
  }

  ghost predicate ReaderStep(s: State, t: State, r: nat) {
    && t.mem == s.mem && t.writer == s.writer && r in s.readers
    && |s.mem.heads| == BUCKETS && ReaderSound(s.mem, s.readers[r])
    && exists next :: Moves(s.mem, s.readers[r], next) && t.readers == s.readers[r := next]
  }

  ghost predicate WriterStep(s: State, t: State) {
    && t.readers == s.readers && |s.mem.heads| == BUCKETS
    && match s.writer
       case Free =>
         // the load of the head, for a new object, or the first store of a retirement
         || (t.mem == s.mem && t.writer.Prepared?
             && var h, node := t.writer.h, t.writer.node;
                h !in s.mem.nodes && h != 0 && node.active && node.next == s.mem.heads[Bucket(h)] && node.stamp == s.mem.clock)
         || (t.writer.Deactivated? && t.writer.h in s.mem.nodes && s.mem.nodes[t.writer.h].active
             && t.mem == Deactivate(s.mem, t.writer.h))
       case Prepared(h, node) => t.writer == Stored(h) && t.mem == StoreHead(s.mem, h, node)
       case Stored(h) => t.writer == Free && h in s.mem.nodes && t.mem == StoreSlot(s.mem, s.mem.nodes[h].owner, h)
       case Deactivated(h) => t.writer == Cleared(h) && h in s.mem.nodes && t.mem == StoreSlot(s.mem, s.mem.nodes[h].owner, 0)
       case Cleared(h) =>
         && t.writer == Unlinked(h) && h in s.mem.nodes
         && exists from :: LeadsTo(s.mem, from, h) && t.mem == Unlink(s.mem, from, h)
       case Unlinked(h) => t.writer == Free && t.mem == PushRetired(s.mem, h)
  }

  ghost predicate Step(s: State, t: State) {
    WriterStep(s, t) || exists r :: ReaderStep(s, t, r)
  }

  predicate Initial(s: State) {
    && s.mem == Memory(map[], seq(BUCKETS, _ => None), s.mem.slots, [], {}, 0)
    && s.writer == Free
    && forall r :: r in s.readers ==> s.readers[r] == Idle
  }

  ghost predicate IsRun(run: seq<State>) {
    && run != [] && Initial(run[0])
    && forall k :: 0 <= k < |run| - 1 ==> Step(run[k], run[k + 1])
  }

  // ---- The invariant ----

  predicate WriterSound(s: State)
    requires |s.mem.heads| == BUCKETS
  {
    match s.writer
    case Free => true
    case Prepared(h, node) =>
      h !in s.mem.nodes && h != 0 && node.active && node.next == s.mem.heads[Bucket(h)] && node.stamp == s.mem.clock
    case Stored(h) => h in s.mem.nodes
    case Deactivated(h) => h in s.mem.linked && h in s.mem.nodes && !s.mem.nodes[h].active
    case Cleared(h) => h in s.mem.linked && h in s.mem.nodes && !s.mem.nodes[h].active
    case Unlinked(h) => h in s.mem.nodes && h !in s.mem.linked && h !in s.mem.retired
  }

  /** Whatever has been unlinked is on the retired list, or about to be pushed there. */
  predicate RetiredSound(s: State) {
    && (forall h :: h in s.mem.nodes ==> h in s.mem.linked || h in s.mem.retired || s.writer == Unlinked(h))
    && (forall h :: h in s.mem.retired ==> h in s.mem.nodes && h !in s.mem.linked)
  }

  ghost predicate Inv(s: State) {
    && Reachable(s.mem) && WriterSound(s) && RetiredSound(s)
    && forall r :: r in s.readers ==> ReaderSound(s.mem, s.readers[r])
  }

  lemma InitialInv(s: State)
    requires Initial(s)
    ensures Inv(s)
  {
    hide Bucket;
  }

  lemma SlotKeeps(m: Memory, owner: nat, value: handle32)
    requires Reachable(m)
    ensures Reachable(StoreSlot(m, owner, value))
    ensures forall a, b :: a in m.nodes && Reaches(m, a, b) ==> Reaches(StoreSlot(m, owner, value), a, b)
  {
    SameShape(m, StoreSlot(m, owner, value));
  }

  lemma PushKeeps(m: Memory, h: handle32)
    requires Reachable(m)
    ensures Reachable(PushRetired(m, h))
    ensures forall a, b :: a in m.nodes && Reaches(m, a, b) ==> Reaches(PushRetired(m, h), a, b)
  {
    SameShape(m, PushRetired(m, h));
  }

  lemma SameShape(m: Memory, n: Memory)
    requires Reachable(m) && n.nodes == m.nodes && n.heads == m.heads && n.linked == m.linked && n.clock == m.clock
    ensures Reachable(n)
    ensures forall a, b :: a in m.nodes && Reaches(m, a, b) ==> Reaches(n, a, b)
  {
    hide Bucket, Reaches;
    SoundAlike(m, n);
    forall a, b | a in m.nodes && Reaches(m, a, b)
      ensures Reaches(n, a, b)
    {
      SameLinks(m, n, a, b);
    }
    HeadsAlike(m, n);
  }

  lemma SoundAlike(m: Memory, n: Memory)
    requires Sound(m) && n.nodes == m.nodes && n.heads == m.heads && n.linked == m.linked && n.clock == m.clock
    ensures Sound(n)
  {
    hide Bucket, LinkSound;
    forall k | k in n.nodes
      ensures LinkSound(n, n.nodes[k].next, Bucket(k), n.nodes[k].stamp)
    {
      LinkStays(m, n, m.nodes[k].next, Bucket(k), m.nodes[k].stamp, m.nodes[k].stamp);
    }
    forall b | 0 <= b < BUCKETS
      ensures LinkSound(n, n.heads[b], b, n.clock)
    {
      LinkStays(m, n, m.heads[b], b, m.clock, n.clock);
    }
  }

  lemma HeadsAlike(m: Memory, n: Memory)
    requires Sound(m) && Sound(n) && HeadsYoungest(m)
    requires n.nodes == m.nodes && n.heads == m.heads && n.linked == m.linked
    ensures HeadsYoungest(n)
  {
    hide Bucket, LinkSound, Live, Sound;
    LinkedKnown(m);
    forall link
      ensures Live(m, link) <==> Live(n, link)
    {
      LiveMeans(m, link);
      LiveMeans(n, link);
    }
  }

  // ---- The invariant holds over every run ----

  /** A store of the writer keeps the invariant, and every path to an active object. */
  lemma WriterKeeps(s: State, t: State)
    requires Inv(s) && WriterStep(s, t)
    ensures Inv(t)
    ensures forall h :: h in s.mem.nodes ==> h in t.mem.nodes
    ensures forall a, b :: a in s.mem.nodes && b in s.mem.nodes && s.mem.nodes[b].active && Reaches(s.mem, a, b)
              ==> Reaches(t.mem, a, b)
  {
    hide Bucket, Reaches, LinkSound, Live, Sound, KeepsOlder, HeadsYoungest;
    LinkedKnown(s.mem);
    match s.writer
    case Free =>
      if t.writer.Deactivated? {
        DeactivateKeeps(s.mem, t.writer.h);
      }
    case Prepared(h, node) =>
      StoreHeadKeeps(s.mem, h, node);
    case Stored(h) =>
      SlotKeeps(s.mem, s.mem.nodes[h].owner, h);
    case Deactivated(h) =>
      SlotKeeps(s.mem, s.mem.nodes[h].owner, 0);
    case Cleared(h) =>
      var from :| LeadsTo(s.mem, from, h) && t.mem == Unlink(s.mem, from, h);
      UnlinkKeeps(s.mem, from, h);
    case Unlinked(h) =>
      PushKeeps(s.mem, h);
  }

  lemma ReaderKeeps(s: State, t: State, r: nat)
    requires Inv(s) && ReaderStep(s, t, r)
    ensures Inv(t)
  {
    hide Bucket, Reaches, LinkSound, Live, KeepsOlder, HeadsYoungest;
    var reader := s.readers[r];
    var next :| Moves(s.mem, reader, next) && t.readers == s.readers[r := next];
    if reader.Begun? && s.mem.heads[Bucket(reader.q.handle)].Some? {
      HeadIn(s.mem, Bucket(reader.q.handle));
    } else if reader.Advancing? && s.mem.nodes[reader.at].next.Some? {
      NextIn(s.mem, reader.at);
    }
  }

  lemma StepKeeps(s: State, t: State)
    requires Inv(s) && Step(s, t)
    ensures Inv(t)
  {
    hide Inv, WriterStep, ReaderStep;
    if WriterStep(s, t) {
      WriterKeeps(s, t);
    } else {
      var r :| ReaderStep(s, t, r);
      ReaderKeeps(s, t, r);
    }
  }

  /** In every reachable state, each node ever published reaches every older linked node of its bucket. */
  lemma {:induction false} RunKeeps(run: seq<State>, k: nat)
    requires IsRun(run) && k < |run|
    ensures Inv(run[k])
  {
    hide Inv, Step;
    if k == 0 {
      InitialInv(run[0]);
    } else {
      RunKeeps(run, k - 1);
      StepKeeps(run[k - 1], run[k]);
    }
  }

  // ---- One traversal ----

  /** The reader has the object it looks for at or ahead of it. */
  ghost predicate OnTrack(m: Memory, reader: Reader)
    requires Sound(m) && ReaderSound(m, reader)
  {
    match reader
    case Idle => false
    case Begun(q) => true
    case Checking(q, at) => Reaches(m, at, q.handle)
    case Advancing(q, at) => at != q.handle && Reaches(m, at, q.handle)
    case Done(q, result) => result == Some(q.handle)
  }

  lemma WriterOnTrack(s: State, t: State, r: nat)
    requires Inv(s) && Inv(t) && WriterStep(s, t) && r in s.readers && OnTrack(s.mem, s.readers[r])
    requires LookUp(s.mem, s.readers[r].q).Some?
    ensures OnTrack(t.mem, t.readers[r])
  {
    hide WriterStep, Reaches, Reachable, WriterSound, RetiredSound;
    assert t.readers == s.readers by {
      SameReaders(s, t);
    }
    WriterKeeps(s, t);
  }

  lemma SameReaders(s: State, t: State)
    requires WriterStep(s, t)
    ensures t.readers == s.readers
  {
  }

  /** While the object is there to be found, the next access of its reader keeps it ahead or finds it. */
  lemma AdvanceOnTrack(m: Memory, reader: Reader)
    requires Reachable(m) && InProgress(reader) && ReaderSound(m, reader) && OnTrack(m, reader)
    requires LookUp(m, reader.q).Some?
    ensures ReaderSound(m, Advance(m, reader)) && OnTrack(m, Advance(m, reader))
  {
    hide Bucket, Reaches, LinkSound, Live, KeepsOlder, HeadsYoungest;
    LinkedKnown(m);
    match reader
    case Begun(q) =>
      HeadReaches(m, q.handle);
    case Checking(q, at) =>
    case Advancing(q, at) =>
      ReachesNext(m, at, q.handle);
  }

  lemma ReaderOnTrack(s: State, t: State, r: nat, other: nat)
    requires Inv(s) && Inv(t) && ReaderStep(s, t, other) && r in s.readers
    requires InProgress(s.readers[r]) && OnTrack(s.mem, s.readers[r])
    requires LookUp(s.mem, s.readers[r].q).Some?
    ensures r in t.readers && t.readers[r].Idle? == false && t.readers[r].q == s.readers[r].q
    ensures OnTrack(t.mem, t.readers[r])
  {
    hide Reaches, Sound, WriterSound, RetiredSound, LookUp, OnTrack, KeepsOlder, HeadsYoungest;
    if r == other {
      AdvanceOnTrack(s.mem, s.readers[r]);
    }
  }

  lemma StepOnTrack(s: State, t: State, r: nat)
    requires Inv(s) && Inv(t) && Step(s, t) && r in s.readers
    requires InProgress(s.readers[r]) && OnTrack(s.mem, s.readers[r])
    requires LookUp(s.mem, s.readers[r].q).Some?
    ensures r in t.readers && !t.readers[r].Idle? && t.readers[r].q == s.readers[r].q
    ensures OnTrack(t.mem, t.readers[r])
  {
    hide WriterStep, ReaderStep, Reaches, LookUp, OnTrack, WriterSound, RetiredSound;
    if WriterStep(s, t) {
      SameReaders(s, t);
      WriterOnTrack(s, t, r);
    } else {
      var other :| ReaderStep(s, t, other);
      ReaderOnTrack(s, t, r, other);
    }
  }

  /** From state i, where it begins, to state j, reader r is inside one call of registry_find. */
  ghost predicate Traversal(run: seq<State>, r: nat, i: nat, j: nat, q: Query) {
    && IsRun(run) && i < j < |run|
    && (forall k :: i <= k <= j ==> r in run[k].readers)
    && run[i].readers[r] == Begun(q)
    && (forall k :: i <= k < j ==> InProgress(run[k].readers[r]))
    && run[j].readers[r].Done?
  }

  /** If the object stays visible, the reader stays on track. */
  lemma {:induction false} StaysOnTrack(run: seq<State>, r: nat, i: nat, j: nat, q: Query, k: nat)
    requires Traversal(run, r, i, j, q) && i <= k <= j
    requires forall l :: i <= l < k ==> LookUp(run[l].mem, q).Some?
    ensures Inv(run[k]) && run[k].readers[r] != Idle && run[k].readers[r].q == q
    ensures OnTrack(run[k].mem, run[k].readers[r])
  {
    hide Inv, Step, LookUp, Reaches;
    RunKeeps(run, k);
    InvGives(run[k], r);
    if k > i {
      StaysOnTrack(run, r, i, j, q, k - 1);
      StepOnTrack(run[k - 1], run[k], r);
    }
  }

  lemma InvGives(s: State, r: nat)
    requires Inv(s) && r in s.readers
    ensures Reachable(s.mem) && ReaderSound(s.mem, s.readers[r])
  {
  }

  /** A step of anyone keeps the query of a lookup in progress, and a hit is an object seen active in that very step. */
  lemma StepResult(s: State, t: State, r: nat)
    requires Inv(s) && Step(s, t) && r in s.readers && r in t.readers && InProgress(s.readers[r])
    ensures !t.readers[r].Idle? && t.readers[r].q == s.readers[r].q
    ensures t.readers[r].Done? && t.readers[r].result.Some? ==> t.readers[r].result == LookUp(s.mem, s.readers[r].q)
  {
    hide WriterStep, Reaches, Reachable, WriterSound, RetiredSound, Bucket;
    if WriterStep(s, t) {
      SameReaders(s, t);
    }
  }

  lemma {:induction false} QueryStays(run: seq<State>, r: nat, i: nat, j: nat, q: Query, k: nat)
    requires Traversal(run, r, i, j, q) && i <= k <= j
    ensures run[k].readers[r] != Idle && run[k].readers[r].q == q
  {
    hide Inv, Step, LookUp;
    if k > i {
      QueryStays(run, r, i, j, q, k - 1);
      RunKeeps(run, k - 1);
      StepResult(run[k - 1], run[k], r);
    }
  }

  /**
   registry_find is linearizable: whatever the writer does meanwhile, its result
   is the one an instantaneous lookup would give at some moment of the call.
   */
  lemma Linearizable(run: seq<State>, r: nat, i: nat, j: nat, q: Query)
    requires Traversal(run, r, i, j, q)
    ensures run[j].readers[r].q == q
    ensures exists k :: i <= k <= j && run[j].readers[r].result == LookUp(run[k].mem, q)
  {
    hide Inv, Step, LookUp;
    QueryStays(run, r, i, j, q, j);
    QueryStays(run, r, i, j, q, j - 1);
    RunKeeps(run, j - 1);
    StepResult(run[j - 1], run[j], r);
    if run[j].readers[r].result.Some? {
      assert run[j].readers[r].result == LookUp(run[j - 1].mem, q);
    } else if forall l :: i <= l < j ==> LookUp(run[l].mem, q).Some? {
      StaysOnTrack(run, r, i, j, q, j);
      assert false;
    } else {
      var l :| i <= l < j && LookUp(run[l].mem, q).None?;
      assert run[j].readers[r].result == LookUp(run[l].mem, q);
    }
  }

  /** An object that stays active throughout the call is found. */
  lemma AlwaysFound(run: seq<State>, r: nat, i: nat, j: nat, q: Query)
    requires Traversal(run, r, i, j, q)
    requires forall k :: i <= k <= j ==> LookUp(run[k].mem, q).Some?
    ensures run[j].readers[r].result == Some(q.handle)
  {
    Linearizable(run, r, i, j, q);
  }

  /** An object that is inactive throughout the call is not returned. */
  lemma NeverStale(run: seq<State>, r: nat, i: nat, j: nat, q: Query)
    requires Traversal(run, r, i, j, q)
    requires forall k :: i <= k <= j ==> LookUp(run[k].mem, q).None?
    ensures run[j].readers[r].result == None
  {
    Linearizable(run, r, i, j, q);
  }

  // ---- Progress ----

  /** How many more accesses a lookup can make; the writer can lengthen it only before the first one. */
  function Rank(m: Memory, reader: Reader): nat
    requires ReaderSound(m, reader)
  {
    match reader
    case Checking(_, at) => 2 * m.nodes[at].stamp + 2
    case Advancing(_, at) => 2 * m.nodes[at].stamp + 1
    case Begun(_) => 2 * m.clock + 2
    case _ => 0
  }

  /** A lookup needs no other thread: each of its own accesses lowers its rank. */
  lemma AdvanceRank(m: Memory, reader: Reader)
    requires Reachable(m) && InProgress(reader) && ReaderSound(m, reader)
    ensures ReaderSound(m, Advance(m, reader)) && Rank(m, Advance(m, reader)) < Rank(m, reader)
  {
    hide Bucket, Reaches, LinkSound, Live, KeepsOlder, HeadsYoungest;
    StampsKnown(m);
    if reader.Begun? && m.heads[Bucket(reader.q.handle)].Some? {
      HeadIn(m, Bucket(reader.q.handle));
    } else if reader.Advancing? && m.nodes[reader.at].next.Some? {
      NextIn(m, reader.at);
    }
  }

  /** Once a lookup holds a node, no store of the writer raises its rank. */
  lemma WriterKeepsRank(s: State, t: State, r: nat)
    requires Inv(s) && Inv(t) && WriterStep(s, t) && r in s.readers && (s.readers[r].Checking? || s.readers[r].Advancing?)
    ensures t.readers == s.readers && Rank(t.mem, t.readers[r]) == Rank(s.mem, s.readers[r])
  {
    hide Bucket, Reaches, LinkSound, Live, KeepsOlder, HeadsYoungest, Sound;
    LinkedKnown(s.mem);
  }

  predicate Holding(reader: Reader) {
    reader.Checking? || reader.Advancing?
  }

  /** Nobody's step raises the rank of a lookup that holds a node, and each of its own lowers it. */
  lemma StepRank(s: State, t: State, r: nat)
    requires Inv(s) && Inv(t) && Step(s, t) && r in s.readers && Holding(s.readers[r])
    ensures r in t.readers && ReaderSound(s.mem, s.readers[r]) && ReaderSound(t.mem, t.readers[r])
    ensures Holding(t.readers[r]) || t.readers[r].Done?
    ensures if t.readers[r] == s.readers[r] then Rank(t.mem, t.readers[r]) == Rank(s.mem, s.readers[r])
            else Rank(t.mem, t.readers[r]) < Rank(s.mem, s.readers[r])
  {
    hide WriterStep, Reachable, WriterSound, RetiredSound, Bucket, Rank;
    if WriterStep(s, t) {
      SameReaders(s, t);
      WriterKeepsRank(s, t, r);
    } else {
      InvGives(s, r);
      AdvanceRank(s.mem, s.readers[r]);
    }
  }

  /** How many accesses reader r makes between two states of a run: each one changes where it is. */
  ghost function Accesses(run: seq<State>, r: nat, i: nat, j: nat): nat
    requires i <= j < |run| && forall k :: i <= k <= j ==> r in run[k].readers
    decreases j
  {
    if i == j then 0
    else Accesses(run, r, i, j - 1) + if run[j - 1].readers[r] == run[j].readers[r] then 0 else 1
  }

  /**
   A lookup that holds a node makes no more accesses than its rank then, however
   the writer and the other readers are interleaved with it.
   */
  lemma {:induction false} HoldingEnds(run: seq<State>, r: nat, i: nat, j: nat)
    requires IsRun(run) && i <= j < |run| && (forall k :: i <= k <= j ==> r in run[k].readers)
    requires Holding(run[i].readers[r]) && (forall k :: i <= k < j ==> InProgress(run[k].readers[r]))
    ensures ReaderSound(run[i].mem, run[i].readers[r]) && ReaderSound(run[j].mem, run[j].readers[r])
    ensures Holding(run[j].readers[r]) || run[j].readers[r].Done?
    ensures Accesses(run, r, i, j) + Rank(run[j].mem, run[j].readers[r]) <= Rank(run[i].mem, run[i].readers[r])
    decreases j
  {
    hide Inv, Step, Rank;
    RunKeeps(run, j);
    InvGives(run[j], r);
    if i < j {
      HoldingEnds(run, r, i, j - 1);
      RunKeeps(run, j - 1);
      StepRank(run[j - 1], run[j], r);
    } else {
      RunKeeps(run, i);
    }
  }

  /** Until its first load a lookup makes no access, and then it holds a node or is done. */
  lemma {:induction false} FirstAccess(run: seq<State>, r: nat, i: nat, j: nat, q: Query) returns (k: nat)
    requires IsRun(run) && i <= j < |run| && (forall l :: i <= l <= j ==> r in run[l].readers)
    requires run[i].readers[r] == Begun(q) && run[j].readers[r] != Begun(q)
    requires forall l :: i <= l < j ==> InProgress(run[l].readers[r])
    ensures i <= k < j && run[k].readers[r] == Begun(q) && Accesses(run, r, i, k) == 0
    ensures Holding(run[k + 1].readers[r]) || run[k + 1].readers[r].Done?
    ensures ReaderSound(run[k + 1].mem, run[k + 1].readers[r])
    ensures Rank(run[k + 1].mem, run[k + 1].readers[r]) <= 2 * run[k].mem.clock + 1
    decreases j
  {
    hide Inv, Step, Rank;
    if run[j - 1].readers[r] != Begun(q) {
      k := FirstAccess(run, r, i, j - 1, q);
    } else {
      k := j - 1;
      RunKeeps(run, k);
      RunKeeps(run, k + 1);
      NoAccess(run, r, i, k, q);
      FirstRank(run[k], run[k + 1], r);
    }
  }

  lemma {:induction false} NoAccess(run: seq<State>, r: nat, i: nat, j: nat, q: Query)
    requires IsRun(run) && i <= j < |run| && (forall l :: i <= l <= j ==> r in run[l].readers)
    requires run[i].readers[r] == Begun(q) && run[j].readers[r] == Begun(q)
    requires forall l :: i <= l < j ==> InProgress(run[l].readers[r])
    ensures Accesses(run, r, i, j) == 0
    decreases j
  {
    hide Inv, Step;
    if i < j {
      RunKeeps(run, j - 1);
      NeverBack(run[j - 1], run[j], r);
      NoAccess(run, r, i, j - 1, q);
    }
  }

  /** A lookup in progress does not begin again. */
  lemma NeverBack(s: State, t: State, r: nat)
    requires Inv(s) && Step(s, t) && r in s.readers && r in t.readers && InProgress(s.readers[r]) && t.readers[r].Begun?
    ensures t.readers[r] == s.readers[r]
  {
    hide WriterStep, Reachable, WriterSound, RetiredSound, Bucket;
    if WriterStep(s, t) {
      SameReaders(s, t);
    }
  }

  lemma {:induction false} AccessesSplit(run: seq<State>, r: nat, i: nat, k: nat, j: nat)
    requires i <= k <= j < |run| && forall l :: i <= l <= j ==> r in run[l].readers
    ensures Accesses(run, r, i, j) == Accesses(run, r, i, k) + Accesses(run, r, k, j)
    decreases j
  {
    if k < j {
      AccessesSplit(run, r, i, k, j - 1);
    }
  }

  /**
   A whole lookup ends by itself, whatever the writer and the other readers do:
   it makes at most two accesses for every object published before its first
   load, and two more.
   */
  lemma LookUpEnds(run: seq<State>, r: nat, i: nat, j: nat, q: Query) returns (k: nat)
    requires Traversal(run, r, i, j, q)
    ensures i <= k < j && run[k].readers[r] == Begun(q)
    ensures Accesses(run, r, i, j) <= 2 * run[k].mem.clock + 2
  {
    hide Inv, Step, Rank;
    k := FirstAccess(run, r, i, j, q);
    AccessesSplit(run, r, i, k, j);
    AccessesSplit(run, r, k, k + 1, j);
    assert Accesses(run, r, k, k + 1) <= 1;
    if k + 1 < j {
      HoldingEnds(run, r, k + 1, j);
    }
  }

  lemma FirstRank(s: State, t: State, r: nat)
    requires Inv(s) && Inv(t) && Step(s, t) && r in s.readers && r in t.readers
    requires s.readers[r].Begun? && t.readers[r] != s.readers[r]
    ensures Holding(t.readers[r]) || t.readers[r].Done?
    ensures ReaderSound(t.mem, t.readers[r]) && Rank(t.mem, t.readers[r]) <= 2 * s.mem.clock + 1
  {
    hide WriterStep, Reachable, WriterSound, RetiredSound, Bucket;
    InvGives(s, r);
    if WriterStep(s, t) {
      SameReaders(s, t);
    } else {
      AdvanceRank(s.mem, s.readers[r]);
    }
  }

  // ---- The writer is never stuck ----

  /** The search of a retirement finds a link to the object. */
  lemma LinkExists(m: Memory, h: handle32)
    requires Reachable(m) && h in m.linked
    ensures exists from :: LeadsTo(m, from, h)
  {
    hide Bucket, Reaches, LinkSound, Live, KeepsOlder, HeadsYoungest;
    LinkedKnown(m);
    HeadReaches(m, h);
    HeadLive(m, h);
    var head := m.heads[Bucket(h)].value;
    if head == h {
      assert LeadsTo(m, None, h);
    } else {
      LinkBefore(m, head, h);
    }
  }

  lemma HeadLive(m: Memory, h: handle32)
    requires Reachable(m) && h in m.linked
    ensures m.heads[Bucket(h)].Some? && m.heads[Bucket(h)].value in m.linked
  {
    hide Bucket, Reaches, LinkSound, Live, KeepsOlder;
    LiveMeans(m, m.heads[Bucket(h)]);
  }

  lemma {:induction false} LinkBefore(m: Memory, a: handle32, h: handle32)
    requires Reachable(m) && a in m.linked && a != h && Reaches(m, a, h)
    ensures exists from :: LeadsTo(m, from, h)
    decreases m.nodes[a].stamp
  {
    hide Bucket, Reaches, LinkSound, Live, KeepsOlder;
    ReachesNext(m, a, h);
    LiveMeans(m, m.nodes[a].next);
    var next := m.nodes[a].next.value;
    if next == h {
      assert LeadsTo(m, Some(a), h);
    } else {
      LinkBefore(m, next, h);
    }
  }
}
