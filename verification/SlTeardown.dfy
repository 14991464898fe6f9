/**
 Destroying a realized player: the destroying thread, the completion worker with
 its guest callback, the audio thread, and other holders of the guest mutex that
 the callback locks.  The player's own lock is held only inside single steps.
 The callback's mutex is taken to have been resolved, and host calls to succeed.
 */
module SlTeardown {
  import opened Wrappers
  import MutexTracking

  datatype Holder = Nobody | Destroyer | Worker | Other

  /** Where the destroying thread is; Elsewhere if the player is destroyed by its own callback, or not at all. */
  datatype DPc = Elsewhere | Entering | Handing | ClosingDevice | Joining | Reacquiring | Freeing | Returned

  /** Where the guest callback is: before it locks the guest mutex, while it holds it, or after. */
  datatype Point = Before | Within | After

  /** Where the worker is: in the callback from Taken to Unlocked, or in the destruction that the callback calls. */
  datatype WPc = Waiting | Taken | Locked | SelfClosing(at: Point) | SelfClosed(at: Point) | Unlocked
               | Leaving | Awaiting | WFreeing | Exited

  function Resume(at: Point): WPc {
    match at
    case Before => Taken
    case Within => Locked
    case After => Unlocked
  }

  datatype APc = Between | Running | Gone

  /**
   entry is how often the destroyer held the guest mutex when it called, and
   inFlightSeen what it read of the callback in its first critical section.
   */
  datatype State = State(
    holder: Holder, depth: nat, d: DPc, w: WPc, a: APc,
    pending: nat, shutdown: bool, inFlightSeen: bool, handed: bool,
    destroyOnExit: bool, resourcesClosed: bool, freed: nat, entry: nat)

  predicate InFlight(w: WPc) {
    w.Taken? || w.Locked? || w.SelfClosing? || w.SelfClosed? || w.Unlocked?
  }

  // ---- The destroyer ----

  function Destroy(s: State): Option<State> {
    match s.d
    case Elsewhere => None
    case Entering => Some(s.(shutdown := true, pending := 0, inFlightSeen := InFlight(s.w), d := Handing))
    case Handing =>
      if s.inFlightSeen && s.holder == Destroyer && s.depth == 1
      then Some(s.(holder := Nobody, depth := 0, handed := true, d := ClosingDevice))
      else Some(s.(d := ClosingDevice))
    case ClosingDevice => if s.a == Running then None else Some(s.(a := Gone, d := Joining))
    case Joining => if s.w != Exited then None else Some(s.(d := if s.handed then Reacquiring else Freeing))
    case Reacquiring => if s.holder != Nobody then None else Some(s.(holder := Destroyer, depth := 1, d := Freeing))
    case Freeing => Some(s.(freed := s.freed + 1, d := Returned))
    case Returned => None
  }

  // ---- The worker ----

  function Work(s: State): Option<State> {
    match s.w
    case Waiting =>
      if s.shutdown then Some(s.(w := Leaving))
      else if s.pending > 0 then Some(s.(pending := s.pending - 1, w := Taken))
      else None
    case Taken => if s.holder != Nobody then None else Some(s.(holder := Worker, depth := 1, w := Locked))
    case Locked => Some(s.(holder := Nobody, depth := 0, w := Unlocked))
    case SelfClosing(at) => if s.a == Running then None else Some(s.(a := Gone, w := SelfClosed(at)))
    case SelfClosed(at) => Some(s.(resourcesClosed := true, w := Resume(at)))
    case Unlocked => Some(s.(w := Waiting))
    case Leaving => Some(s.(w := if s.destroyOnExit then Awaiting else Exited))
    case Awaiting => if !s.resourcesClosed then None else Some(s.(w := WFreeing))
    case WFreeing => Some(s.(freed := s.freed + 1, w := Exited))
    case Exited => None
  }

  /** The callback destroys its own player: the first critical section of the deferred path. */
  function SelfDestroy(s: State, at: Point): Option<State> {
    if s.w == Resume(at) && s.d == Elsewhere && !s.shutdown
    then Some(s.(shutdown := true, pending := 0, destroyOnExit := true, w := SelfClosing(at)))
    else None
  }

  // ---- The audio thread ----

  function Play(s: State): Option<State> {
    if s.a == Running then Some(s.(a := Between)) else None
  }

  predicate DeviceClosing(s: State) {
    s.d.ClosingDevice? || s.w.SelfClosing?
  }

  /** A paused device that is being closed starts no more callbacks. */
  function StartPlaying(s: State): Option<State> {
    if s.a == Between && !DeviceClosing(s) then Some(s.(a := Running)) else None
  }

  // ---- The rest of the game ----

  /** Another thread takes or gives up the guest mutex, or a callback becomes pending. */
  predicate Outside(s: State, n: State) {
    || (s.holder == Nobody && n == s.(holder := Other, depth := n.depth) && n.depth > 0)
    || (s.holder == Other && n == s.(holder := Nobody, depth := 0))
    || (!s.shutdown && n == s.(pending := s.pending + 1))
    || StartPlaying(s) == Some(n)
    || (exists at :: SelfDestroy(s, at) == Some(n))
  }

  predicate Own(s: State, n: State) {
    Destroy(s) == Some(n) || Work(s) == Some(n) || Play(s) == Some(n)
  }

  predicate Step(s: State, n: State) {
    Own(s, n) || Outside(s, n)
  }

  /** A player in use, and a thread that is about to destroy it, or none. */
  predicate Initial(s: State) {
    && !s.shutdown && !s.handed && !s.destroyOnExit && !s.resourcesClosed && s.freed == 0
    && (s.d == Elsewhere || s.d == Entering)
    && (s.w == Waiting || s.w == Taken || s.w == Locked || s.w == Unlocked) && s.a != Gone
    && (s.w == Locked <==> s.holder == Worker) && (s.holder == Worker ==> s.depth == 1)
    && (s.holder == Nobody <==> s.depth == 0)
    && s.entry == (if s.holder == Destroyer then s.depth else 0)
    && (s.holder == Destroyer ==> s.d == Entering)
  }

  // ---- The invariant ----

  predicate MutexSound(s: State) {
    && (s.holder == Nobody <==> s.depth == 0)
    && (s.holder == Worker <==> s.w == Locked || s.w == SelfClosing(Within) || s.w == SelfClosed(Within))
    && (s.holder == Worker ==> s.depth == 1)
    && (s.handed ==> s.entry == 1)
    && (s.holder == Destroyer ==> s.depth == s.entry && s.d != Elsewhere)
    && (s.entry > 0 && s.holder != Destroyer ==> s.handed && (s.d.ClosingDevice? || s.d.Joining? || s.d.Reacquiring?))
  }

  /** The joined path: the destroyer is another thread than the worker. */
  predicate JoinedSound(s: State) {
    && (s.d == Entering <==> !s.shutdown)
    && !s.destroyOnExit && !s.w.SelfClosing? && !s.w.SelfClosed? && !s.w.Awaiting? && !s.w.WFreeing?
    && (s.shutdown && !s.inFlightSeen ==> !InFlight(s.w))
    && (s.d.Joining? || s.d.Reacquiring? || s.d.Freeing? || s.d.Returned? ==> s.a == Gone)
    && (s.d.Reacquiring? || s.d.Freeing? || s.d.Returned? ==> s.w == Exited)
    && ((s.d.Freeing? || s.d.Returned?) && s.handed ==> s.holder == Destroyer)
    && (s.d.Reacquiring? ==> s.handed)
    && (s.d.Entering? || s.d.Handing? ==> !s.handed)
    && ((s.d.ClosingDevice? || s.d.Joining?) && s.holder == Destroyer && s.entry == 1 ==> !InFlight(s.w))
    && ((s.d.ClosingDevice? || s.d.Joining? || s.d.Reacquiring?) && s.handed ==> s.holder != Destroyer)
    && s.freed == (if s.d == Returned then 1 else 0)
    && (!s.shutdown ==> !s.w.Leaving? && !s.w.Exited?)
  }

  /** The deferred path: the callback destroys the player, or nobody does. */
  predicate DeferredSound(s: State) {
    && s.entry == 0 && !s.handed && s.holder != Destroyer && s.destroyOnExit == s.shutdown
    && (s.w.SelfClosing? || s.w.SelfClosed? || s.w.Leaving? || s.w.Awaiting? || s.w.WFreeing? || s.w.Exited? ==> s.shutdown)
    && (s.shutdown && !s.w.SelfClosing? && !s.w.SelfClosed? ==> s.resourcesClosed)
    && (s.resourcesClosed || s.w.SelfClosed? ==> s.a == Gone)
  }

  predicate Inv(s: State) {
    && MutexSound(s)
    && (if s.d == Elsewhere then DeferredSound(s) && s.freed == (if s.w == Exited then 1 else 0)
        else JoinedSound(s))
    && (s.a == Gone ==> s.shutdown)
  }

  lemma InitialInv(s: State)
    requires Initial(s)
    ensures Inv(s)
  {
  }

  lemma DestroyMutex(s: State)
    requires Inv(s) && Destroy(s).Some?
    ensures MutexSound(Destroy(s).value)
  {
  }

  lemma DestroyJoined(s: State)
    requires Inv(s) && Destroy(s).Some?
    ensures s.d != Elsewhere && JoinedSound(Destroy(s).value)
  {
  }

  lemma DestroyKeeps(s: State)
    requires Inv(s) && Destroy(s).Some?
    ensures Inv(Destroy(s).value)
  {
    hide MutexSound, JoinedSound, DeferredSound;
    DestroyMutex(s);
    DestroyJoined(s);
    DestroyGone(s);
  }

  /** The device is only gone once the player is shut down. */
  lemma DestroyGone(s: State)
    requires Inv(s) && Destroy(s).Some?
    ensures var n := Destroy(s).value; n.d != Elsewhere && (n.a == Gone ==> n.shutdown)
  {
    hide MutexSound, DeferredSound;
  }

  /** The steps that lock and unlock the guest mutex. */
  lemma WorkLocks(s: State)
    requires Inv(s) && Work(s).Some? && (s.w == Taken || s.w == Locked)
    ensures MutexSound(Work(s).value)
  {
    hide JoinedSound, DeferredSound;
  }

  /** The others leave it alone. */
  lemma WorkElsewhere(s: State)
    requires Inv(s) && Work(s).Some? && s.w != Taken && s.w != Locked
    ensures MutexSound(Work(s).value)
  {
    hide JoinedSound, DeferredSound;
    var n := Work(s).value;
    assert n.holder == s.holder && n.depth == s.depth && n.d == s.d && n.handed == s.handed && n.entry == s.entry;
    if s.w.SelfClosed? {
      assert n.w == Resume(s.w.at);
    }
  }

  lemma WorkMutex(s: State)
    requires Inv(s) && Work(s).Some?
    ensures MutexSound(Work(s).value)
  {
    hide Inv, MutexSound, Work;
    if s.w == Taken || s.w == Locked {
      WorkLocks(s);
    } else {
      WorkElsewhere(s);
    }
  }

  lemma WorkJoined(s: State)
    requires Inv(s) && Work(s).Some? && s.d != Elsewhere
    ensures JoinedSound(Work(s).value)
  {
    hide DeferredSound;
    match s.w
    case Waiting =>
    case Taken =>
    case Locked =>
    case Leaving =>
    case _ =>
  }

  lemma WorkDeferred(s: State)
    requires Inv(s) && Work(s).Some? && s.d == Elsewhere
    ensures DeferredSound(Work(s).value)
    ensures var n := Work(s).value; n.freed == if n.w == Exited then 1 else 0
  {
    hide JoinedSound, MutexSound;
  }

  lemma WorkFrame(s: State)
    requires Inv(s) && Work(s).Some?
    ensures var n := Work(s).value; n.d == s.d && (n.a == Gone ==> n.shutdown)
  {
    hide MutexSound;
  }

  lemma WorkKeeps(s: State)
    requires Inv(s) && Work(s).Some?
    ensures Inv(Work(s).value)
  {
    hide MutexSound, JoinedSound, DeferredSound, Work;
    WorkMutex(s);
    WorkFrame(s);
    if s.d == Elsewhere {
      WorkDeferred(s);
    } else {
      WorkJoined(s);
    }
  }

  lemma OthersKeep(s: State, n: State)
    requires Inv(s)
    requires (s.holder == Nobody && n == s.(holder := Other, depth := n.depth) && n.depth > 0)
          || (s.holder == Other && n == s.(holder := Nobody, depth := 0))
    ensures Inv(n)
  {
  }

  lemma PlayKeeps(s: State, n: State)
    requires Inv(s) && (Play(s) == Some(n) || StartPlaying(s) == Some(n))
    ensures Inv(n)
  {
  }

  lemma SelfDestroyKeeps(s: State, at: Point)
    requires Inv(s) && SelfDestroy(s, at).Some?
    ensures Inv(SelfDestroy(s, at).value)
  {
  }

  lemma PendingKeeps(s: State)
    requires Inv(s)
    ensures Inv(s.(pending := s.pending + 1))
  {
  }

  lemma OutsideKeeps(s: State, n: State)
    requires Inv(s) && (Outside(s, n) || Play(s) == Some(n))
    ensures Inv(n)
  {
    hide Inv, SelfDestroy, Play, StartPlaying;
    if Play(s) == Some(n) || StartPlaying(s) == Some(n) {
      PlayKeeps(s, n);
    } else if at :| SelfDestroy(s, at) == Some(n) {
      SelfDestroyKeeps(s, at);
    } else if n == s.(pending := s.pending + 1) {
      PendingKeeps(s);
    } else {
      OthersKeep(s, n);
    }
  }

  lemma StepKeeps(s: State, n: State)
    requires Inv(s) && Step(s, n)
    ensures Inv(n) && n.entry == s.entry
  {
    hide Inv, Destroy, Work, Play, Outside;
    StepFrame(s, n);
    if Destroy(s) == Some(n) {
      DestroyKeeps(s);
    } else if Work(s) == Some(n) {
      WorkKeeps(s);
    } else {
      OutsideKeeps(s, n);
    }
  }

  lemma DestroyFrame(s: State)
    requires Destroy(s).Some?
    ensures var n := Destroy(s).value; n.entry == s.entry && (s.shutdown ==> n.shutdown)
  {
  }

  lemma WorkerFrame(s: State)
    requires Work(s).Some?
    ensures var n := Work(s).value; n.entry == s.entry && n.shutdown == s.shutdown
  {
  }

  lemma OutsideFrame(s: State, n: State)
    requires Outside(s, n) || Play(s) == Some(n)
    ensures n.entry == s.entry && (s.shutdown ==> n.shutdown)
  {
  }

  /** No step changes how the destroyer entered, or revives the player. */
  lemma StepFrame(s: State, n: State)
    requires Step(s, n)
    ensures n.entry == s.entry && (s.shutdown ==> n.shutdown)
  {
    hide Destroy, Work, Play, Outside;
    if Destroy(s) == Some(n) {
      DestroyFrame(s);
    } else if Work(s) == Some(n) {
      WorkerFrame(s);
    } else {
      OutsideFrame(s, n);
    }
  }

  // ---- Freed once, and touched by nobody afterwards ----

  /** Every step of the three threads touches the player, but for the wait that ends with the guest mutex. */
  lemma FreedOnceAndLast(s: State)
    requires Inv(s)
    ensures s.freed <= 1
    ensures s.freed == 1 ==> Destroy(s) == None && Work(s) == None && Play(s) == None && StartPlaying(s) == None && forall at :: SelfDestroy(s, at) == None
    ensures s.d == Returned ==> s.freed == 1 && s.w == Exited && s.a == Gone
    ensures s.d == Elsewhere && s.w == Exited ==> s.freed == 1 && s.a == Gone
  {
  }

  /** On the joined path the destroyer returns holding the guest mutex exactly as it did on entry. */
  lemma MutexAsOnEntry(s: State)
    requires Inv(s) && s.d == Returned
    ensures s.entry > 0 ==> s.holder == Destroyer && s.depth == s.entry
    ensures s.entry == 0 ==> s.holder != Destroyer
  {
  }

  // ---- No deadlock ----

  predicate Final(s: State) {
    if s.d == Elsewhere then s.w == Exited else s.d == Returned
  }

  /** How much is left to do once the player is shut down. */
  function Rank(s: State): nat {
    DRank(s.d) + WRank(s.w) + if s.a == Running then 1 else 0
  }

  function DRank(d: DPc): nat {
    match d
    case Elsewhere => 0
    case Entering => 7
    case Handing => 6
    case ClosingDevice => 5
    case Joining => 4
    case Reacquiring => 3
    case Freeing => 2
    case Returned => 1
  }

  function WRank(w: WPc): nat {
    match w
    case Taken => 9
    case SelfClosing(_) => 11
    case SelfClosed(_) => 10
    case Locked => 6
    case Unlocked => 5
    case Waiting => 4
    case Leaving => 3
    case Awaiting => 2
    case WFreeing => 1
    case Exited => 0
  }

  /** Every step of the three threads brings the end nearer. */
  lemma OwnStepsEnd(s: State, n: State)
    requires Inv(s) && s.shutdown && Own(s, n)
    ensures Rank(n) < Rank(s) && n.shutdown
  {
    hide Inv, Destroy, Work;
    StepFrame(s, n);
    if Destroy(s) == Some(n) {
      DestroyEnds(s);
    } else if Work(s) == Some(n) {
      WorkEnds(s);
    }
  }

  lemma DestroyEnds(s: State)
    requires Inv(s) && s.shutdown && Destroy(s).Some?
    ensures Rank(Destroy(s).value) < Rank(s)
  {
    hide MutexSound, DeferredSound;
  }

  lemma WorkEnds(s: State)
    requires Inv(s) && s.shutdown && Work(s).Some?
    ensures Rank(Work(s).value) < Rank(s)
  {
    hide Inv, DRank;
    match s.w
    case SelfClosing(_) =>
    case SelfClosed(at) => assert WRank(Resume(at)) <= 9;
    case _ =>
  }

  /** Nothing else takes it further away, except that the device may call once more before it is being closed. */
  lemma OutsideStepsWait(s: State, n: State)
    requires Inv(s) && s.shutdown && Outside(s, n)
    ensures n.shutdown && Rank(n) == Rank(s) + if StartPlaying(s) == Some(n) then 1 else 0
    ensures DeviceClosing(s) || s.a == Gone ==> StartPlaying(s) == None
  {
  }

  /** The destroyer still holds the guest mutex, more than once, and the callback is about to lock it. */
  predicate Stuck(s: State) {
    s.holder == Destroyer && s.depth >= 2 && s.w == Taken && (s.d == Handing || s.d == ClosingDevice || s.d == Joining)
  }

  /** Short of the end, somebody can move, or waits for another thread to give up the guest mutex. */
  lemma SomebodyMoves(s: State)
    requires Inv(s) && s.shutdown && !Final(s) && !Stuck(s)
    ensures (exists n :: Own(s, n)) || (s.holder == Other && (s.w == Taken || s.d == Reacquiring))
  {
    if Destroy(s).Some? {
      assert Own(s, Destroy(s).value);
    } else if Work(s).Some? {
      assert Own(s, Work(s).value);
    } else if Play(s).Some? {
      assert Own(s, Play(s).value);
    }
  }

  /** A destroyer that held the guest mutex at most once never gets stuck. */
  lemma OnceIsEnough(s: State)
    requires Inv(s) && s.entry <= 1
    ensures !Stuck(s)
  {
  }

  ghost predicate IsRun(run: seq<State>) {
    run != [] && Initial(run[0]) && forall k :: 0 <= k < |run| - 1 ==> Step(run[k], run[k + 1])
  }

  lemma {:induction false} RunKeeps(run: seq<State>, k: nat)
    requires IsRun(run) && k < |run|
    ensures Inv(run[k]) && run[k].entry == run[0].entry
  {
    hide Inv, Step, Initial;
    if k == 0 {
      InitialInv(run[0]);
    } else {
      RunKeeps(run, k - 1);
      StepKeeps(run[k - 1], run[k]);
    }
  }

  /**
   Destroy cannot deadlock, in any reachable state, when the destroyer does not
   hold the callback's guest mutex or holds it once: until the end some thread
   of the player can move or waits for a mutex that another thread holds, and
   every such move brings the end nearer.
   */
  lemma NoDeadlock(run: seq<State>, k: nat)
    requires IsRun(run) && k < |run| && run[0].entry <= 1 && run[k].shutdown && !Final(run[k])
    ensures (exists n :: Own(run[k], n)) || (run[k].holder == Other && (run[k].w == Taken || run[k].d == Reacquiring))
    ensures forall n :: Own(run[k], n) ==> Rank(n) < Rank(run[k])
  {
    hide Inv, Own;
    RunKeeps(run, k);
    OnceIsEnough(run[k]);
    SomebodyMoves(run[k]);
    forall n | Own(run[k], n)
      ensures Rank(n) < Rank(run[k])
    {
      OwnStepsEnd(run[k], n);
    }
  }

  // ---- A mutex held more than once ----

  lemma StuckStays(s: State, n: State)
    requires Inv(s) && Stuck(s) && Step(s, n)
    ensures Stuck(n)
  {
  }

  lemma StuckAtFirst(s: State, n: State)
    requires Inv(s) && s.d == Entering && Destroy(s) == Some(n)
    ensures n.shutdown && (Stuck(n) <==> s.holder == Destroyer && s.depth >= 2 && s.w == Taken)
  {
  }

  lemma UnstuckByDestroyer(s: State)
    requires Inv(s) && s.shutdown && !Stuck(s) && Destroy(s).Some?
    ensures !Stuck(Destroy(s).value)
  {
    hide DeferredSound;
  }

  lemma UnstuckByWorker(s: State)
    requires Inv(s) && s.shutdown && !Stuck(s) && Work(s).Some?
    ensures !Stuck(Work(s).value)
  {
    hide MutexSound;
  }

  lemma UnstuckStays(s: State, n: State)
    requires Inv(s) && s.shutdown && !Stuck(s) && Step(s, n)
    ensures n.shutdown && !Stuck(n)
  {
    hide Destroy, Work, Inv;
    StepFrame(s, n);
    if Destroy(s) == Some(n) {
      UnstuckByDestroyer(s);
    } else if Work(s) == Some(n) {
      UnstuckByWorker(s);
    }
  }

  /** Stuck is for ever: whatever anyone does, the destroyer never returns. */
  lemma {:induction false} StuckForEver(run: seq<State>, i: nat, j: nat)
    requires IsRun(run) && i <= j < |run| && Stuck(run[i])
    ensures Stuck(run[j]) && run[j].d != Returned
  {
    hide Inv, Step;
    if i < j {
      StuckForEver(run, i, j - 1);
      RunKeeps(run, j - 1);
      StuckStays(run[j - 1], run[j]);
    }
  }

  /** A shut-down player that is not stuck never becomes stuck. */
  lemma {:induction false} NeverStuckLater(run: seq<State>, i: nat, j: nat)
    requires IsRun(run) && i <= j < |run| && run[i].shutdown && !Stuck(run[i])
    ensures run[j].shutdown && !Stuck(run[j])
  {
    hide Inv, Step, Stuck;
    if i < j {
      NeverStuckLater(run, i, j - 1);
      RunKeeps(run, j - 1);
      UnstuckStays(run[j - 1], run[j]);
    }
  }

  /**
   From its first critical section on, the destroyer is stuck if and only if it
   then held the guest mutex more than once and the callback was still before its lock.
   */
  lemma StuckExactly(run: seq<State>, k: nat, j: nat)
    requires IsRun(run) && k < j < |run| && run[k].d == Entering && Destroy(run[k]) == Some(run[k + 1])
    ensures Stuck(run[j]) <==> run[k].holder == Destroyer && run[k].depth >= 2 && run[k].w == Taken
  {
    hide Inv, Step, Stuck, Destroy;
    RunKeeps(run, k);
    StuckAtFirst(run[k], run[k + 1]);
    if Stuck(run[k + 1]) {
      StuckForEver(run, k + 1, j);
    } else {
      NeverStuckLater(run, k + 1, j);
    }
  }

  /** And it does get stuck: it holds the mutex twice, and the worker has just taken its callback. */
  lemma StuckRun() returns (run: seq<State>)
    ensures IsRun(run) && run[0].entry == 2 && Stuck(run[|run| - 1])
  {
    var s := State(Destroyer, 2, Entering, Taken, Between, 0, false, false, false, false, false, 0, 2);
    var n := Destroy(s).value;
    assert Step(s, n);
    run := [s, n];
  }

  /** Freed once, on either path; then nobody moves again; and on the joined path the mutex is as it was. */
  lemma TeardownOutcome(run: seq<State>, k: nat)
    requires IsRun(run) && k < |run|
    ensures run[k].freed <= 1
    ensures run[k].freed == 1 ==> !(exists n :: Own(run[k], n)) && StartPlaying(run[k]) == None && forall at :: SelfDestroy(run[k], at) == None
    ensures run[k].shutdown && Final(run[k]) ==> run[k].freed == 1
    ensures run[k].d == Returned ==> if run[0].entry > 0 then run[k].holder == Destroyer && run[k].depth == run[0].entry
                                     else run[k].holder != Destroyer
  {
    hide Inv, Destroy, Work, Play, StartPlaying, SelfDestroy;
    RunKeeps(run, k);
    FreedOnceAndLast(run[k]);
    if run[k].d == Returned {
      MutexAsOnEntry(run[k]);
    }
  }

  // ---- The handoff of pthread_bridge.c ----

  /** How often the destroyer holds the guest mutex. */
  function Held(s: State): nat {
    if s.holder == Destroyer then s.depth else 0
  }

  /** The handoff steps are the handoff operations: begin gives up a mutex held exactly once, and end takes it back. */
  lemma HandoffContracts(kind: MutexTracking.Type, s: State, n: State)
    requires Inv(s) && Destroy(s) == Some(n)
    ensures s.d == Handing && s.inFlightSeen ==>
              MutexTracking.Contract(kind, MutexTracking.HandoffBegin, Held(s), Held(n), if n.handed then 1 else 0)
    ensures s.d == Reacquiring ==> MutexTracking.Contract(kind, MutexTracking.HandoffEnd, Held(s), Held(n), 0)
  {
  }
}
