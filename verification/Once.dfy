/**
 asm2_pthread_once for one control word, any number of threads and any
 cancellations.  Every access to the word is inside a critical section of
 once_lock, so each critical section is one step.
 */
module Once {
  import opened Wrappers

  const EINVAL := 22

  /** Waiting is the condition wait; Started to Cancelled is the thread that has stored 1. */
  datatype Pc =
    | Outside
    | Waiting
    | Started
    | Running
    | Completed
    | Cancelled
    | Gone
    | Returned(code: int)

  /** started and completed count the runs of the initialiser; runner is the thread that stored 1.  No step reads them. */
  datatype State = State(control: nat, threads: map<nat, Pc>, started: nat, completed: nat, runner: Option<nat>) {
    function At(t: nat, pc: Pc): State {
      this.(threads := threads[t := pc])
    }
  }

  predicate Active(pc: Pc) {
    pc.Started? || pc.Running? || pc.Completed? || pc.Cancelled?
  }

  // ---- Steps ----

  /** From the lock, or from waking up, to the end of the critical section. */
  function Enter(s: State, t: nat): State {
    if s.control == 1 then s.At(t, Waiting)
    else if s.control == 2 then s.At(t, Returned(0))
    else if s.control != 0 then s.At(t, Returned(EINVAL))
    else s.(control := 1, runner := Some(t)).At(t, Started)
  }

  /** once_init_cancelled. */
  function Reset(s: State, t: nat): State {
    (if s.control == 1 then s.(control := 0, runner := None) else s).At(t, Gone)
  }

  datatype Act = Call | Wake | Begin | Finish | Cancel | Handler | Publish

  /**
   Cancellation is deferred unless late cancellation is allowed: it then strikes
   inside the initialiser, since no other call between is a cancellation point.
   */
  function Next(s: State, t: nat, act: Act, late: bool): Option<State>
    requires t in s.threads
  {
    var pc := s.threads[t];
    match act
    case Call => if pc.Outside? || pc.Returned? then Some(Enter(s, t)) else None
    case Wake => if pc.Waiting? then Some(Enter(s, t)) else None
    case Begin => if pc.Started? then Some(s.(started := s.started + 1).At(t, Running)) else None
    case Finish => if pc.Running? then Some(s.(completed := s.completed + 1).At(t, Completed)) else None
    case Cancel => if pc.Running? || (late && pc.Completed?) then Some(s.At(t, Cancelled)) else None
    case Handler => if pc.Cancelled? then Some(Reset(s, t)) else None
    case Publish => if pc.Completed? then Some(s.(control := 2, runner := None).At(t, Returned(0))) else None
  }

  ghost predicate Step(s: State, n: State, late: bool) {
    exists t, act :: t in s.threads && Next(s, t, act, late) == Some(n)
  }

  predicate Initial(s: State) {
    s.started == 0 && s.completed == 0 && s.runner == None && forall t :: t in s.threads ==> s.threads[t] == Outside
  }

  ghost predicate IsRun(run: seq<State>, late: bool) {
    run != [] && Initial(run[0]) && forall k :: 0 <= k < |run| - 1 ==> Step(run[k], run[k + 1], late)
  }

  // ---- What every step keeps, late cancellations or not ----

  predicate ThreadSound(s: State, t: nat)
    requires t in s.threads
  {
    var pc := s.threads[t];
    && (Active(pc) ==> s.runner == Some(t))
    && (pc.Returned? ==> if pc.code == 0 then s.control == 2 else s.control > 2)
  }

  /** first is the word the guest began with. */
  predicate WordSound(s: State, first: nat) {
    if first != 0 then s.control == first && s.started == 0 && s.completed == 0 && s.runner == None
    else
      && (s.control == 0 ==> s.runner == None)
      && (s.control == 1 ==> s.runner.Some? && s.runner.value in s.threads && Active(s.threads[s.runner.value]))
      && (s.control == 2 ==> s.completed >= 1 && s.runner == None)
      && (s.control == 1 && s.threads[s.runner.value].Completed? ==> s.completed >= 1)
      && s.control <= 2
  }

  predicate Inv(s: State, first: nat) {
    WordSound(s, first) && forall t :: t in s.threads ==> ThreadSound(s, t)
  }

  lemma ActKeeps(s: State, t: nat, act: Act, late: bool, first: nat)
    requires Inv(s, first) && t in s.threads && Next(s, t, act, late).Some?
    ensures var n := Next(s, t, act, late).value;
            && WordSound(n, first) && n.threads == s.threads[t := n.threads[t]] && ThreadSound(n, t)
            && (s.control >= 2 ==> n.control == s.control && n.completed == s.completed)
            && (n.runner == s.runner || n.runner == None || n.runner == Some(t))
            && (Active(s.threads[t]) || n.control == s.control || s.control == 0)
  {
    assert ThreadSound(s, t);
  }

  lemma StepKeeps(s: State, n: State, late: bool, first: nat)
    requires Inv(s, first) && Step(s, n, late)
    ensures Inv(n, first) && (s.control >= 2 ==> n.control == s.control && n.completed == s.completed)
  {
    hide Next, WordSound;
    var t, act :| t in s.threads && Next(s, t, act, late) == Some(n);
    ActKeeps(s, t, act, late, first);
    ActRunner(s, t, act, late, first);
    forall u | u in n.threads
      ensures ThreadSound(n, u)
    {
      assert ThreadSound(s, u) && ThreadSound(s, t);
    }
  }

  /** Another thread's step takes neither the runner nor a final word away. */
  lemma ActRunner(s: State, t: nat, act: Act, late: bool, first: nat)
    requires Inv(s, first) && t in s.threads && Next(s, t, act, late).Some?
    ensures var n := Next(s, t, act, late).value;
            && (s.runner.Some? && s.runner != Some(t) ==> n.runner == s.runner)
            && (s.control >= 2 ==> n.control == s.control)
  {
    assert ThreadSound(s, t);
  }

  lemma {:induction false} RunKeeps(run: seq<State>, late: bool, k: nat)
    requires IsRun(run, late) && k < |run|
    ensures Inv(run[k], run[0].control)
  {
    hide Step, WordSound;
    if k > 0 {
      RunKeeps(run, late, k - 1);
      StepKeeps(run[k - 1], run[k], late, run[0].control);
    } else {
      InitialInv(run[0]);
    }
  }

  lemma InitialInv(s: State)
    requires Initial(s)
    ensures Inv(s, s.control)
  {
  }

  /** At most one thread is ever inside the initialiser. */
  lemma OneInitialiser(run: seq<State>, late: bool, k: nat, t: nat, u: nat)
    requires IsRun(run, late) && k < |run| && t in run[k].threads && u in run[k].threads
    requires run[k].threads[t].Running? && run[k].threads[u].Running?
    ensures t == u && run[k].control == 1
  {
    RunKeeps(run, late, k);
    assert ThreadSound(run[k], t) && ThreadSound(run[k], u);
  }

  /** A call that returned success did so after a completed run, unless the guest began with the word at 2. */
  lemma SuccessFollowsRun(run: seq<State>, late: bool, k: nat, t: nat)
    requires IsRun(run, late) && k < |run| && t in run[k].threads && run[k].threads[t] == Returned(0)
    ensures run[k].control == 2 && (run[k].completed >= 1 || run[0].control == 2)
  {
    RunKeeps(run, late, k);
    assert ThreadSound(run[k], t);
  }

  /** The other return code is for a word that is no state; the word is then left alone and nothing runs. */
  lemma RejectsOtherWords(run: seq<State>, late: bool, k: nat, t: nat)
    requires IsRun(run, late) && k < |run| && t in run[k].threads && run[k].threads[t].Returned?
    ensures run[k].threads[t].code != 0 <==> run[0].control > 2
    ensures run[0].control > 2 ==> run[k].control == run[0].control && run[k].started == 0
  {
    RunKeeps(run, late, k);
    assert ThreadSound(run[k], t);
  }

  /** State 2 is never left, and nothing completes any more. */
  lemma {:induction false} TwoIsFinal(run: seq<State>, late: bool, i: nat, j: nat)
    requires IsRun(run, late) && i <= j < |run| && run[i].control == 2
    ensures run[j].control == 2 && run[j].completed == run[i].completed
  {
    hide Step;
    if i < j {
      TwoIsFinal(run, late, i, j - 1);
      RunKeeps(run, late, j - 1);
      StepKeeps(run[j - 1], run[j], late, run[0].control);
    }
  }

  // ---- Waiting ends ----

  /** How far the thread that stored 1 still has to go. */
  function Distance(pc: Pc): nat {
    match pc
    case Started => 4
    case Running => 3
    case Completed => 2
    case Cancelled => 1
    case _ => 0
  }

  /** A waiting thread is never stranded: it can leave its wait, or the thread it waits for can take a step that is no cancellation. */
  lemma NotStranded(run: seq<State>, late: bool, k: nat, t: nat)
    requires IsRun(run, late) && k < |run| && run[0].control != 1 && t in run[k].threads && run[k].threads[t].Waiting?
    ensures run[k].control != 1 ==> Next(run[k], t, Wake, late).Some? && !Next(run[k], t, Wake, late).value.threads[t].Waiting?
    ensures run[k].control == 1 ==>
              && run[k].runner.Some? && run[k].runner.value in run[k].threads
              && exists act :: act != Cancel && Next(run[k], run[k].runner.value, act, late).Some?
  {
    RunKeeps(run, late, k);
    var s := run[k];
    if s.control == 1 {
      var r := s.runner.value;
      var act := match s.threads[r]
        case Started => Begin
        case Running => Finish
        case Completed => Publish
        case _ => Handler;
      assert Next(s, r, act, late).Some?;
    }
  }

  /**
   While the word is 1, each step ends that, or brings the thread that stored it
   nearer to its end, or leaves that thread where it is; so if that thread keeps
   taking steps the wait ends after at most four of them.
   */
  lemma WaitEnds(run: seq<State>, late: bool, k: nat)
    requires IsRun(run, late) && k + 1 < |run| && run[0].control != 1 && run[k].control == 1
    ensures run[k].runner.Some? && run[k].runner.value in run[k].threads && run[k].runner.value in run[k + 1].threads
    ensures run[k + 1].control != 1
         || (run[k + 1].runner == run[k].runner
             && var r := run[k].runner.value;
                || run[k + 1].threads[r] == run[k].threads[r]
                || Distance(run[k + 1].threads[r]) < Distance(run[k].threads[r]) <= 4)
  {
    RunKeeps(run, late, k);
    var s, n := run[k], run[k + 1];
    assert Step(s, n, late);
    var t, act :| t in s.threads && Next(s, t, act, late) == Some(n);
    assert ThreadSound(s, t);
  }

  /** A cancelled initialiser hands the word to the next caller. */
  lemma CancelledIsRetried(run: seq<State>, late: bool, k: nat, t: nat, u: nat)
    requires IsRun(run, late) && k < |run| && run[0].control == 0
    requires t in run[k].threads && run[k].threads[t].Cancelled? && u in run[k].threads && run[k].threads[u].Waiting?
    ensures var reset := Next(run[k], t, Handler, late);
            && reset.Some? && reset.value.control == 0 && u in reset.value.threads
            && var retried := Next(reset.value, u, Wake, late);
               retried.Some? && retried.value.control == 1 && retried.value.threads[u] == Started
  {
    RunKeeps(run, late, k);
    assert ThreadSound(run[k], t);
  }

  // ---- How often the initialiser completes ----

  /** A cancellation between the end of the initialiser and the store of 2; only an asynchronous one strikes there. */
  ghost predicate LateCancel(s: State, n: State) {
    exists t :: t in s.threads && s.threads[t].Completed? && Next(s, t, Cancel, true) == Some(n)
  }

  /** How many of the first k steps are late cancellations. */
  ghost function Lates(run: seq<State>, k: nat): nat
    requires k < |run|
  {
    if k == 0 then 0 else Lates(run, k - 1) + if LateCancel(run[k - 1], run[k]) then 1 else 0
  }

  /** The last run of the initialiser has completed and is not lost. */
  predicate Settled(s: State) {
    s.control == 2 || (s.runner.Some? && s.runner.value in s.threads && s.threads[s.runner.value].Completed?)
  }

  function Count(b: bool): nat {
    if b then 1 else 0
  }

  /** Only the cancellation of a completed thread is late. */
  lemma LateAct(s: State, n: State, t: nat, act: Act, late: bool)
    requires t in s.threads && Next(s, t, act, late) == Some(n)
    ensures LateCancel(s, n) <==> act == Cancel && s.threads[t].Completed?
  {
    if LateCancel(s, n) {
      var u :| u in s.threads && s.threads[u].Completed? && Next(s, u, Cancel, true) == Some(n);
      assert n.threads[u] == Cancelled;
    }
  }

  lemma CountAct(s: State, t: nat, act: Act, late: bool)
    requires Inv(s, 0) && t in s.threads && Next(s, t, act, late).Some?
    ensures var n := Next(s, t, act, late).value;
            n.completed + Count(Settled(s)) == s.completed + Count(Settled(n)) + Count(act == Cancel && s.threads[t].Completed?)
  {
    assert ThreadSound(s, t);
  }

  /**
   From a word at 0, the initialiser has completed once for every late
   cancellation so far, and once more if the word is 2 or is about to be.
   */
  lemma {:induction false} CompletedCount(run: seq<State>, late: bool, k: nat)
    requires IsRun(run, late) && k < |run| && run[0].control == 0
    ensures run[k].completed == Lates(run, k) + Count(Settled(run[k]))
  {
    hide Next, Settled, LateCancel, Inv;
    if k == 0 {
      StartsUnsettled(run[0]);
    } else {
      CompletedCount(run, late, k - 1);
      RunKeeps(run, late, k - 1);
      var s, n := run[k - 1], run[k];
      assert Step(s, n, late);
      var t, act :| t in s.threads && Next(s, t, act, late) == Some(n);
      CountAct(s, t, act, late);
      LateAct(s, n, t, act, late);
    }
  }

  lemma StartsUnsettled(s: State)
    requires Initial(s) && s.control == 0
    ensures !Settled(s)
  {
  }

  /** The initialiser completes at most once, exactly unless a late cancellation is followed by another completion. */
  lemma CompletesOnceExactly(run: seq<State>, late: bool, k: nat)
    requires IsRun(run, late) && k < |run|
    ensures run[k].completed <= 1 <==>
              run[0].control != 0 || Lates(run, k) == 0 || (Lates(run, k) == 1 && !Settled(run[k]))
  {
    if run[0].control == 0 {
      CompletedCount(run, late, k);
    } else {
      RunKeeps(run, late, k);
    }
  }

  lemma {:induction false} NoLates(run: seq<State>, k: nat)
    requires IsRun(run, false) && k < |run|
    ensures Lates(run, k) == 0
  {
    hide LateCancel;
    if k > 0 {
      NoLates(run, k - 1);
      var s, n := run[k - 1], run[k];
      assert Step(s, n, false);
      var t, act :| t in s.threads && Next(s, t, act, false) == Some(n);
      LateAct(s, n, t, act, false);
    }
  }

  /** With deferred cancellation there is none, and the initialiser completes at most once. */
  lemma CompletesOnce(run: seq<State>, k: nat)
    requires IsRun(run, false) && k < |run|
    ensures run[k].completed <= 1
  {
    NoLates(run, k);
    CompletesOnceExactly(run, false, k);
  }

  /** Without one, allowing late cancellation changes nothing. */
  lemma OnTimeIsDeferred(run: seq<State>)
    requires IsRun(run, true)
    requires forall k :: 0 <= k < |run| - 1 ==> !LateCancel(run[k], run[k + 1])
    ensures IsRun(run, false)
  {
    forall k | 0 <= k < |run| - 1
      ensures Step(run[k], run[k + 1], false)
    {
      var s, n := run[k], run[k + 1];
      assert Step(s, n, true) && !LateCancel(s, n);
      var t, act :| t in s.threads && Next(s, t, act, true) == Some(n);
      assert Next(s, t, act, false) == Some(n);
    }
  }

  // ---- A run that completes it twice ----

  lemma CancelledLate(run: seq<State>, t: nat) returns (longer: seq<State>)
    requires IsRun(run, true) && t in run[|run| - 1].threads && run[|run| - 1].threads[t].Completed?
    ensures IsRun(longer, true) && |longer| == |run| + 2 && run <= longer && LateCancel(run[|run| - 1], longer[|run|])
    ensures var s, n := run[|run| - 1], longer[|run| + 1];
            n == s.(control := 0, runner := None, threads := s.threads[t := Gone])
  {
    var s := run[|run| - 1];
    RunKeeps(run, true, |run| - 1);
    assert ThreadSound(s, t);
    var a := Next(s, t, Cancel, true).value;
    var b := Next(a, t, Handler, true).value;
    assert Step(s, a, true) && Step(a, b, true);
    assert b.threads == s.threads[t := Gone];
    OneMore(run, a);
    OneMore(run + [a], b);
    longer := run + [a] + [b];
  }

  lemma CallsAgain(run: seq<State>, u: nat) returns (longer: seq<State>)
    requires IsRun(run, true) && u in run[|run| - 1].threads && run[|run| - 1].threads[u].Outside? && run[|run| - 1].control == 0
    ensures IsRun(longer, true) && |longer| == |run| + 3 && run <= longer
    ensures longer[|run| + 2].completed == run[|run| - 1].completed + 1
    ensures longer[|run| + 2].threads == run[|run| - 1].threads[u := Completed]
  {
    var s := run[|run| - 1];
    var a := Next(s, u, Call, true).value;
    var b := Next(a, u, Begin, true).value;
    var c := Next(b, u, Finish, true).value;
    assert Step(s, a, true) && Step(a, b, true) && Step(b, c, true);
    assert c.threads == s.threads[u := Completed];
    OneMore(run, a);
    OneMore(run + [a], b);
    OneMore(run + [a] + [b], c);
    longer := run + [a] + [b] + [c];
  }

  /** After a late cancellation the initialiser completes again as soon as another thread calls. */
  lemma LateCancelRepeats(run: seq<State>, t: nat, u: nat) returns (longer: seq<State>)
    requires IsRun(run, true) && t in run[|run| - 1].threads && u in run[|run| - 1].threads
    requires run[|run| - 1].threads[t].Completed? && run[|run| - 1].threads[u].Outside?
    ensures IsRun(longer, true) && |longer| == |run| + 5 && run <= longer
    ensures LateCancel(run[|run| - 1], longer[|run|])
    ensures longer[|longer| - 1].completed == run[|run| - 1].completed + 1
  {
    hide IsRun, LateCancel;
    var lost := CancelledLate(run, t);
    longer := CallsAgain(lost, u);
    assert longer[|run|] == lost[|run|];
  }

  lemma OneMore(run: seq<State>, n: State)
    requires IsRun(run, true) && Step(run[|run| - 1], n, true)
    ensures IsRun(run + [n], true)
  {
    hide Step;
    forall k | 0 <= k < |run|
      ensures Step((run + [n])[k], (run + [n])[k + 1], true)
    {
      if k < |run| - 1 {
        assert (run + [n])[k] == run[k] && (run + [n])[k + 1] == run[k + 1];
      }
    }
  }

  /** So two threads and one late cancellation complete it twice. */
  lemma CompletesTwice() returns (run: seq<State>)
    ensures IsRun(run, true) && run[0].control == 0 && run[|run| - 1].completed == 2
  {
    var s := State(0, map[0 := Outside, 1 := Outside], 0, 0, None);
    var once := CallsAgain([s], 0);
    assert once[0] == [s][0];
    run := LateCancelRepeats(once, 0, 1);
    assert run[0] == once[0];
  }
}
