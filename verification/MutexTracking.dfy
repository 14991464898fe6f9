/**
 The owner and depth that pthread_bridge.c records beside a host mutex, with any
 number of threads interleaved at every atomic load and store and every host call.
 Threads are numbers; one mutex object is modelled, and objects share nothing.
 */
module MutexTracking {
  import opened Wrappers

  const EPERM := 1
  const EAGAIN := 11
  const EBUSY := 16
  const EINVAL := 22
  const EDEADLK := 35

  /** The host counts recursive locks in 32 bits. */
  const MAX_COUNT := 0xffff_ffff

  datatype Type = Normal | Recursive | ErrorCheck

  /** The host mutex; a count of zero means nobody owns it. */
  datatype Host = Host(owner: nat, count: nat) {
    predicate Owns(t: nat) {
      count > 0 && owner == t
    }

    /** How many times t holds it. */
    function Held(t: nat): nat {
      if Owns(t) then count else 0
    }
  }

  /** mutex_owner, where None is zero, and mutex_depth. */
  datatype Record = Record(owner: Option<nat>, depth: nat)

  datatype Op = Lock | TryLock | Unlock | HandoffBegin | HandoffEnd | Wait

  /** Where a thread is; code is what the operation returned, or is about to return. */
  datatype Pc =
    | Outside(op: Op, code: int)
    | LockCall(op: Op)
    | TryCall
    | AcquiredLoad(op: Op, code: int)
    | AcquiredAdd(op: Op, code: int)
    | AcquiredDepth(op: Op, code: int)
    | AcquiredOwner(op: Op, code: int)
    | BeginOwner
    | BeginDepth
    | ReleaseOwner(op: Op)
    | ReleaseDepth(op: Op, seen: Option<nat>)
    | ReleaseStore(op: Op, depth: nat)
    | ReleaseClear(op: Op)
    | HostRelease(op: Op, depth: nat)
    | RestoreDepth(op: Op, depth: nat, code: int)
    | RestoreOwner(op: Op, depth: nat, code: int)
    | Blocked

  /** What one thread sees: the mutex, the record, where it is, and whether its handoff is active. */
  datatype View = View(host: Host, record: Record, pc: Pc, handed: bool)

  /** A host call may also fail for a reason of its own, with this error. */
  datatype Choice = Call(op: Op) | Go | Fail(error: int) {
    predicate Fails() {
      Fail? && error > EPERM
    }
  }

  /** The first instruction of each operation. */
  function Enter(v: View, op: Op): View {
    match op
    case Lock => v.(pc := LockCall(Lock))
    case TryLock => v.(pc := TryCall)
    case Unlock => v.(pc := ReleaseOwner(Unlock))
    case Wait => v.(pc := ReleaseOwner(Wait))
    case HandoffBegin => v.(pc := BeginOwner, handed := false)
    case HandoffEnd => v.(pc := if v.handed then LockCall(HandoffEnd) else Outside(HandoffEnd, EINVAL))
  }

  /** pthread_mutex_lock of the host; nothing while the call blocks. */
  function HostLock(kind: Type, t: nat, v: View, op: Op): Option<View> {
    if v.host.count == 0 then Some(v.(host := Host(t, 1), pc := AcquiredLoad(op, 0)))
    else if v.host.owner != t || kind == Normal then None
    else if kind == ErrorCheck then Some(v.(pc := Outside(op, EDEADLK)))
    else if v.host.count == MAX_COUNT then Some(v.(pc := Outside(op, EAGAIN)))
    else Some(v.(host := Host(t, v.host.count + 1), pc := AcquiredLoad(op, 0)))
  }

  function HostTryLock(kind: Type, t: nat, v: View): View {
    if v.host.count == 0 then v.(host := Host(t, 1), pc := AcquiredLoad(TryLock, 0))
    else if v.host.owner != t || kind != Recursive then v.(pc := Outside(TryLock, EBUSY))
    else if v.host.count == MAX_COUNT then v.(pc := Outside(TryLock, EAGAIN))
    else v.(host := Host(t, v.host.count + 1), pc := AcquiredLoad(TryLock, 0))
  }

  /** The host call that ends a release: pthread_mutex_unlock, or pthread_cond_wait at depth one. */
  function HostUnlock(t: nat, v: View, op: Op, depth: nat, choice: Choice): View {
    if op == Wait && depth != 1 then v.(pc := RestoreDepth(Wait, depth, EINVAL))
    else if op == Wait && choice.Fails() then
      // a wait that fails has not let go of the mutex, and is recorded as acquired again
      v.(pc := AcquiredLoad(Wait, choice.error))
    else if choice.Fails() then v.(pc := RestoreDepth(op, depth, choice.error))
    else if !v.host.Owns(t) then v.(pc := RestoreDepth(op, depth, EPERM))
    else
      var released := v.(host := Host(t, v.host.count - 1));
      match op
      case Wait => released.(pc := Blocked)
      case HandoffBegin => released.(pc := Outside(HandoffBegin, 1), handed := true)
      case _ => released.(pc := Outside(op, 0))
  }

  /** Errors of handoff begin are returned negated. */
  function Signed(op: Op, code: int): int {
    if op == HandoffBegin then -code else code
  }

  /** One step of thread t, if it can take one. */
  function Act(kind: Type, t: nat, v: View, choice: Choice): Option<View> {
    match v.pc
    case Outside(_, _) => if choice.Call? then Some(Enter(v, choice.op)) else None
    case LockCall(op) =>
      if choice.Fails() then Some(v.(pc := Outside(op, choice.error))) else HostLock(kind, t, v, op)
    case TryCall => Some(HostTryLock(kind, t, v))
    case AcquiredLoad(op, code) =>
      Some(v.(pc := if v.record.owner == Some(t) then AcquiredAdd(op, code) else AcquiredDepth(op, code)))
    case AcquiredAdd(op, code) =>
      Some(v.(record := Record(v.record.owner, v.record.depth + 1), pc := Outside(op, code), handed := v.handed && op != HandoffEnd))
    case AcquiredDepth(op, code) => Some(v.(record := Record(v.record.owner, 1), pc := AcquiredOwner(op, code)))
    case AcquiredOwner(op, code) =>
      Some(v.(record := Record(Some(t), v.record.depth), pc := Outside(op, code), handed := v.handed && op != HandoffEnd))
    case BeginOwner => Some(v.(pc := if v.record.owner == Some(t) then BeginDepth else Outside(HandoffBegin, 0)))
    case BeginDepth => Some(v.(pc := if v.record.depth == 1 then ReleaseOwner(HandoffBegin) else Outside(HandoffBegin, 0)))
    case ReleaseOwner(op) => Some(v.(pc := ReleaseDepth(op, v.record.owner)))
    case ReleaseDepth(op, seen) =>
      if seen != Some(t) || v.record.depth == 0 then Some(v.(pc := Outside(op, Signed(op, EPERM))))
      else Some(v.(pc := ReleaseStore(op, v.record.depth)))
    case ReleaseStore(op, depth) =>
      if depth > 1 then Some(v.(record := Record(v.record.owner, depth - 1), pc := HostRelease(op, depth)))
      else Some(v.(record := Record(None, v.record.depth), pc := ReleaseClear(op)))
    case ReleaseClear(op) => Some(v.(record := Record(v.record.owner, 0), pc := HostRelease(op, 1)))
    case HostRelease(op, depth) => Some(HostUnlock(t, v, op, depth, choice))
    case RestoreDepth(op, depth, code) => Some(v.(record := Record(v.record.owner, depth), pc := RestoreOwner(op, depth, code)))
    case RestoreOwner(op, _, code) => Some(v.(record := Record(Some(t), v.record.depth), pc := Outside(op, Signed(op, code))))
    case Blocked =>
      // woken, timed out, or woken for no reason; the call returns once the mutex is free
      if v.host.count > 0 then None
      else Some(v.(host := Host(t, 1), pc := AcquiredLoad(Wait, if choice.Fails() then choice.error else 0)))
  }

  // ---- All threads ----

  datatype System = System(kind: Type, host: Host, record: Record, threads: map<nat, Pc>, handed: set<nat>) {
    function See(t: nat): View
      requires t in threads
    {
      View(host, record, threads[t], t in handed)
    }

    function Put(t: nat, v: View): System {
      System(kind, v.host, v.record, threads[t := v.pc], if v.handed then handed + {t} else handed - {t})
    }
  }

  ghost predicate Step(s: System, n: System, t: nat) {
    t in s.threads && exists choice :: Act(s.kind, t, s.See(t), choice).Some?
                                       && n == s.Put(t, Act(s.kind, t, s.See(t), choice).value)
  }

  // ---- The invariant ----

  /** What the record holds while its owner, who holds the host mutex count times, is at pc. */
  predicate OwnerSound(pc: Pc, t: nat, count: nat, record: Record) {
    var exact := record == Record(Some(t), count);
    var less := record == if count > 1 then Record(Some(t), count - 1) else Record(None, 0);
    match pc
    case Outside(_, _) => exact
    case LockCall(_) => exact
    case TryCall => exact
    case BeginOwner => exact
    case BeginDepth => exact
    case AcquiredLoad(_, _) => less
    case AcquiredAdd(_, _) => count > 1 && less
    case AcquiredDepth(_, _) => count == 1 && less
    case AcquiredOwner(_, _) => count == 1 && record == Record(None, 1)
    case ReleaseOwner(op) => exact && (op == HandoffBegin ==> count == 1)
    case ReleaseDepth(op, seen) => exact && seen == Some(t) && (op == HandoffBegin ==> count == 1)
    case ReleaseStore(op, depth) => exact && depth == count && (op == HandoffBegin ==> count == 1)
    case ReleaseClear(_) => count == 1 && record == Record(None, 1)
    case HostRelease(op, depth) => less && depth == count && (op == HandoffBegin ==> count == 1)
    case RestoreDepth(op, depth, _) => less && depth == count && (op == HandoffBegin ==> count == 1)
    case RestoreOwner(op, depth, _) =>
      depth == count && record == Record(if count > 1 then Some(t) else None, count) && (op == HandoffBegin ==> count == 1)
    case Blocked => false
  }

  /** Where a thread that does not hold the host mutex can be. */
  predicate OtherSound(pc: Pc, t: nat) {
    match pc
    case Outside(_, _) => true
    case LockCall(_) => true
    case TryCall => true
    case BeginOwner => true
    case ReleaseOwner(op) => op != HandoffBegin
    case ReleaseDepth(op, seen) => op != HandoffBegin && seen != Some(t)
    case Blocked => true
    case _ => false
  }

  predicate PcSound(host: Host, record: Record, t: nat, pc: Pc) {
    if host.Owns(t) then OwnerSound(pc, t, host.count, record) else OtherSound(pc, t)
  }

  predicate HostSound(kind: Type, host: Host, record: Record) {
    && (host.count == 0 ==> record == Record(None, 0))
    && (record.owner == None || record.owner == Some(host.owner))
    && host.count <= (if kind == Recursive then MAX_COUNT else 1)
  }

  predicate Inv(s: System) {
    && HostSound(s.kind, s.host, s.record)
    && forall t :: t in s.threads ==> PcSound(s.host, s.record, t, s.threads[t])
  }

  predicate Initial(s: System) {
    && s.host.count == 0 && s.record == Record(None, 0)
    && forall t :: t in s.threads ==> s.threads[t] == Outside(Unlock, 0)
  }

  /** A step keeps its own thread sound, and leaves the mutex and the record to their owner. */
  ghost predicate Kept(kind: Type, t: nat, v: View, n: View) {
    && HostSound(kind, n.host, n.record) && PcSound(n.host, n.record, t, n.pc)
    && (v.host.count > 0 && v.host.owner != t ==> n.host == v.host && n.record == v.record)
    && (v.host.count == 0 ==> n.host.count == 0 || n.host.owner == t)
    && (v.host.Owns(t) ==> n.host.owner == t)
  }

  predicate Acquires(pc: Pc) {
    pc.LockCall? || pc.TryCall? || pc.AcquiredLoad? || pc.AcquiredAdd? || pc.AcquiredDepth? || pc.AcquiredOwner? || pc.Blocked?
  }

  lemma AcquireKeeps(kind: Type, t: nat, v: View, choice: Choice)
    requires HostSound(kind, v.host, v.record) && PcSound(v.host, v.record, t, v.pc) && Act(kind, t, v, choice).Some?
    requires Acquires(v.pc)
    ensures Kept(kind, t, v, Act(kind, t, v, choice).value)
  {
  }

  /** Reading the record, before anything is stored. */
  predicate Inspects(pc: Pc) {
    pc.Outside? || pc.BeginOwner? || pc.BeginDepth? || pc.ReleaseOwner? || pc.ReleaseDepth?
  }

  lemma InspectKeeps(kind: Type, t: nat, v: View, choice: Choice)
    requires HostSound(kind, v.host, v.record) && PcSound(v.host, v.record, t, v.pc) && Act(kind, t, v, choice).Some?
    requires Inspects(v.pc)
    ensures Kept(kind, t, v, Act(kind, t, v, choice).value)
  {
  }

  lemma HostReleaseKeeps(kind: Type, t: nat, v: View, choice: Choice)
    requires HostSound(kind, v.host, v.record) && PcSound(v.host, v.record, t, v.pc) && v.pc.HostRelease?
    ensures Kept(kind, t, v, HostUnlock(t, v, v.pc.op, v.pc.depth, choice))
  {
  }

  lemma StoreKeeps(kind: Type, t: nat, v: View, choice: Choice)
    requires HostSound(kind, v.host, v.record) && PcSound(v.host, v.record, t, v.pc) && Act(kind, t, v, choice).Some?
    requires v.pc.ReleaseStore? || v.pc.ReleaseClear? || v.pc.RestoreDepth? || v.pc.RestoreOwner?
    ensures Kept(kind, t, v, Act(kind, t, v, choice).value)
  {
    hide HostUnlock, HostLock, HostTryLock, Enter;
  }

  lemma ActKeeps(kind: Type, t: nat, v: View, choice: Choice)
    requires HostSound(kind, v.host, v.record) && PcSound(v.host, v.record, t, v.pc) && Act(kind, t, v, choice).Some?
    ensures Kept(kind, t, v, Act(kind, t, v, choice).value)
  {
    hide HostSound, PcSound, Kept, HostUnlock, HostLock, HostTryLock, Enter;
    if Acquires(v.pc) {
      AcquireKeeps(kind, t, v, choice);
    } else if Inspects(v.pc) {
      InspectKeeps(kind, t, v, choice);
    } else if v.pc.HostRelease? {
      HostReleaseKeeps(kind, t, v, choice);
    } else {
      StoreKeeps(kind, t, v, choice);
    }
  }

  lemma StepKeeps(s: System, n: System, t: nat)
    requires Inv(s) && Step(s, n, t)
    ensures Inv(n) && n.threads.Keys == s.threads.Keys && n.kind == s.kind
  {
    hide Act, HostSound, OwnerSound, OtherSound;
    var choice :| Act(s.kind, t, s.See(t), choice).Some? && n == s.Put(t, Act(s.kind, t, s.See(t), choice).value);
    ActKeeps(s.kind, t, s.See(t), choice);
    forall u | u in n.threads
      ensures PcSound(n.host, n.record, u, n.threads[u])
    {
      assert PcSound(s.host, s.record, u, s.threads[u]);
    }
  }

  /** The movers say which thread makes each step. */
  ghost predicate IsRun(run: seq<System>, movers: seq<nat>) {
    && run != [] && |movers| == |run| - 1 && Initial(run[0])
    && forall k :: 0 <= k < |movers| ==> Step(run[k], run[k + 1], movers[k])
  }

  lemma {:induction false} RunKeeps(run: seq<System>, movers: seq<nat>, k: nat)
    requires IsRun(run, movers) && k < |run|
    ensures Inv(run[k]) && run[k].kind == run[0].kind && run[k].threads.Keys == run[0].threads.Keys
  {
    hide Step, HostSound, OwnerSound, OtherSound;
    if k == 0 {
      InitialInv(run[0]);
    } else {
      RunKeeps(run, movers, k - 1);
      StepKeeps(run[k - 1], run[k], movers[k - 1]);
    }
  }

  lemma InitialInv(s: System)
    requires Initial(s)
    ensures Inv(s)
  {
  }

  /**
   Tracking: a recorded owner really holds the host mutex; and a holder that is
   between operations is recorded, with its recursion count as depth.
   */
  lemma Tracking(run: seq<System>, movers: seq<nat>, k: nat, t: nat)
    requires IsRun(run, movers) && k < |run| && t in run[k].threads
    ensures run[k].record.owner == Some(t) ==> run[k].host.Owns(t)
    ensures run[k].threads[t].Outside? ==>
              && (run[k].host.Owns(t) <==> run[k].record.owner == Some(t))
              && (run[k].host.Owns(t) ==> run[k].record.depth == run[k].host.count)
  {
    hide Step;
    RunKeeps(run, movers, k);
    assert PcSound(run[k].host, run[k].record, t, run[k].threads[t]);
  }

  // ---- What each operation does ----

  /** From holding the mutex before times to holding it after times, with this return code. */
  predicate Contract(kind: Type, op: Op, before: nat, after: nat, code: int) {
    match op
    case Lock => if code == 0 then after == before + 1 && (before > 0 ==> kind == Recursive) else after == before
    case TryLock =>
      if code == 0 then after == before + 1 && (before > 0 ==> kind == Recursive)
      else after == before
           && (if kind == Recursive && before > 0 then code == EAGAIN && before == MAX_COUNT else code == EBUSY)
    case Unlock =>
      if before == 0 then code == EPERM && after == 0
      else (code == 0 && after == before - 1) || (code > EPERM && after == before)
    case HandoffBegin =>
      if before != 1 then code == 0 && after == before
      else (code == 1 && after == 0) || (code < -EPERM && after == 1)
    case HandoffEnd => if code == 0 then after == before + 1 && (before > 0 ==> kind == Recursive) else after == before
    case Wait =>
      if before == 0 then code == EPERM && after == 0
      else if before == 1 then after == 1 && (code == 0 || code > EPERM)
      else code == EINVAL && after == before
  }

  /** What holds inside the operation, before it returns. */
  predicate During(kind: Type, op: Op, before: nat, pc: Pc, held: nat) {
    var acquired := if op == Wait then before == 1 && held == 1 else held == before + 1 && (before > 0 ==> kind == Recursive);
    match pc
    case Outside(o, code) => o == op && Contract(kind, op, before, held, code)
    case LockCall(o) => o == op && (op == Lock || op == HandoffEnd) && held == before
    case TryCall => op == TryLock && held == before
    case AcquiredLoad(o, code) => o == op && acquired && (code == 0 || (op == Wait && code > EPERM)) && Acquirer(op)
    case AcquiredAdd(o, code) => o == op && acquired && (code == 0 || (op == Wait && code > EPERM)) && Acquirer(op)
    case AcquiredDepth(o, code) => o == op && acquired && (code == 0 || (op == Wait && code > EPERM)) && Acquirer(op)
    case AcquiredOwner(o, code) => o == op && acquired && (code == 0 || (op == Wait && code > EPERM)) && Acquirer(op)
    case BeginOwner => op == HandoffBegin && held == before
    case BeginDepth => op == HandoffBegin && held == before > 0
    case ReleaseOwner(o) => o == op && Releaser(op) && held == before
    case ReleaseDepth(o, seen) => o == op && Releaser(op) && held == before
    case ReleaseStore(o, depth) => o == op && Releaser(op) && held == before > 0
    case ReleaseClear(o) => o == op && Releaser(op) && held == before > 0
    case HostRelease(o, depth) => o == op && Releaser(op) && held == before > 0
    case RestoreDepth(o, depth, code) => o == op && Releaser(op) && held == before > 0 && code > EPERM && (op == Wait ==> code == EINVAL && before > 1)
    case RestoreOwner(o, depth, code) => o == op && Releaser(op) && held == before > 0 && code > EPERM && (op == Wait ==> code == EINVAL && before > 1)
    case Blocked => op == Wait && before == 1 && held == 0
  }

  predicate Acquirer(op: Op) {
    op == Lock || op == TryLock || op == HandoffEnd || op == Wait
  }

  predicate Releaser(op: Op) {
    op == Unlock || op == HandoffBegin || op == Wait
  }

  lemma EnterDuring(kind: Type, t: nat, v: View, op: Op)
    requires v.pc.Outside?
    ensures var n := Act(kind, t, v, Call(op)); n.Some? && During(kind, op, v.host.Held(t), n.value.pc, n.value.host.Held(t))
  {
  }

  lemma LockDuring(kind: Type, t: nat, v: View, choice: Choice, op: Op, before: nat)
    requires HostSound(kind, v.host, v.record) && PcSound(v.host, v.record, t, v.pc)
    requires (v.pc.LockCall? || v.pc.Blocked?) && Act(kind, t, v, choice).Some? && During(kind, op, before, v.pc, v.host.Held(t))
    ensures var n := Act(kind, t, v, choice).value; During(kind, op, before, n.pc, n.host.Held(t))
  {
    hide HostTryLock, HostUnlock, Enter;
  }

  lemma TryDuring(kind: Type, t: nat, v: View, choice: Choice, op: Op, before: nat)
    requires HostSound(kind, v.host, v.record) && PcSound(v.host, v.record, t, v.pc)
    requires v.pc.TryCall? && Act(kind, t, v, choice).Some? && During(kind, op, before, v.pc, v.host.Held(t))
    ensures var n := Act(kind, t, v, choice).value; During(kind, op, before, n.pc, n.host.Held(t))
  {
    hide HostLock, HostUnlock, Enter;
  }

  lemma RecordDuring(kind: Type, t: nat, v: View, choice: Choice, op: Op, before: nat)
    requires HostSound(kind, v.host, v.record) && PcSound(v.host, v.record, t, v.pc)
    requires (v.pc.AcquiredLoad? || v.pc.AcquiredAdd? || v.pc.AcquiredDepth? || v.pc.AcquiredOwner?) && Act(kind, t, v, choice).Some? && During(kind, op, before, v.pc, v.host.Held(t))
    ensures var n := Act(kind, t, v, choice).value; During(kind, op, before, n.pc, n.host.Held(t))
  {
    hide HostLock, HostTryLock, HostUnlock, Enter;
  }

  lemma AcquireDuring(kind: Type, t: nat, v: View, choice: Choice, op: Op, before: nat)
    requires HostSound(kind, v.host, v.record) && PcSound(v.host, v.record, t, v.pc)
    requires Acquires(v.pc) && Act(kind, t, v, choice).Some? && During(kind, op, before, v.pc, v.host.Held(t))
    ensures var n := Act(kind, t, v, choice).value; During(kind, op, before, n.pc, n.host.Held(t))
  {
    hide HostSound, PcSound, During, Act;
    if v.pc.LockCall? || v.pc.Blocked? {
      LockDuring(kind, t, v, choice, op, before);
    } else if v.pc.TryCall? {
      TryDuring(kind, t, v, choice, op, before);
    } else {
      RecordDuring(kind, t, v, choice, op, before);
    }
  }

  lemma InspectDuring(kind: Type, t: nat, v: View, choice: Choice, op: Op, before: nat)
    requires HostSound(kind, v.host, v.record) && PcSound(v.host, v.record, t, v.pc) && !v.pc.Outside?
    requires Inspects(v.pc) && Act(kind, t, v, choice).Some? && During(kind, op, before, v.pc, v.host.Held(t))
    ensures var n := Act(kind, t, v, choice).value; During(kind, op, before, n.pc, n.host.Held(t))
  {
  }

  lemma HostReleaseDuring(kind: Type, t: nat, v: View, choice: Choice, op: Op, before: nat)
    requires HostSound(kind, v.host, v.record) && PcSound(v.host, v.record, t, v.pc) && v.pc.HostRelease?
    requires During(kind, op, before, v.pc, v.host.Held(t))
    ensures var n := HostUnlock(t, v, v.pc.op, v.pc.depth, choice); During(kind, op, before, n.pc, n.host.Held(t))
  {
  }

  lemma StoreDuring(kind: Type, t: nat, v: View, choice: Choice, op: Op, before: nat)
    requires HostSound(kind, v.host, v.record) && PcSound(v.host, v.record, t, v.pc)
    requires v.pc.ReleaseStore? || v.pc.ReleaseClear? || v.pc.RestoreDepth? || v.pc.RestoreOwner?
    requires Act(kind, t, v, choice).Some? && During(kind, op, before, v.pc, v.host.Held(t))
    ensures var n := Act(kind, t, v, choice).value; During(kind, op, before, n.pc, n.host.Held(t))
  {
    hide HostUnlock, HostLock, HostTryLock, Enter;
  }

  lemma ActDuring(kind: Type, t: nat, v: View, choice: Choice, op: Op, before: nat)
    requires HostSound(kind, v.host, v.record) && PcSound(v.host, v.record, t, v.pc) && !v.pc.Outside?
    requires Act(kind, t, v, choice).Some? && During(kind, op, before, v.pc, v.host.Held(t))
    ensures var n := Act(kind, t, v, choice).value; During(kind, op, before, n.pc, n.host.Held(t))
  {
    hide HostSound, PcSound, During, HostUnlock, HostLock, HostTryLock, Enter;
    if Acquires(v.pc) {
      AcquireDuring(kind, t, v, choice, op, before);
    } else if Inspects(v.pc) {
      InspectDuring(kind, t, v, choice, op, before);
    } else if v.pc.HostRelease? {
      HostReleaseDuring(kind, t, v, choice, op, before);
    } else {
      StoreDuring(kind, t, v, choice, op, before);
    }
  }

  /** Steps of other threads change neither where t is nor how often it holds the mutex. */
  lemma OthersLeave(s: System, n: System, mover: nat, t: nat)
    requires Inv(s) && Step(s, n, mover) && t in s.threads && t != mover
    ensures t in n.threads && n.threads[t] == s.threads[t] && n.host.Held(t) == s.host.Held(t)
    ensures (t in n.handed) == (t in s.handed)
  {
    hide Act, HostSound, OwnerSound, OtherSound;
    var choice :| Act(s.kind, mover, s.See(mover), choice).Some?
                  && n == s.Put(mover, Act(s.kind, mover, s.See(mover), choice).value);
    ActKeeps(s.kind, mover, s.See(mover), choice);
  }

  /** Thread t enters this operation at step i and returns from it at state j. */
  ghost predicate Operation(run: seq<System>, movers: seq<nat>, t: nat, op: Op, i: nat, j: nat) {
    && IsRun(run, movers) && i < j < |run| && t in run[0].threads
    && t in run[i].threads && run[i].threads[t].Outside? && movers[i] == t
    && run[i + 1] == run[i].Put(t, Enter(run[i].See(t), op))
    && (forall k :: i < k <= j ==> t in run[k].threads)
    && (forall k :: i < k < j ==> !run[k].threads[t].Outside?)
    && run[j].threads[t].Outside?
  }

  lemma {:induction false} InsideOperation(run: seq<System>, movers: seq<nat>, t: nat, op: Op, i: nat, j: nat, k: nat)
    requires Operation(run, movers, t, op, i, j) && i < k <= j
    ensures During(run[i].kind, op, run[i].host.Held(t), run[k].threads[t], run[k].host.Held(t))
  {
    hide Act, HostSound, OwnerSound, OtherSound, During, Acquires, Enter;
    if k == i + 1 {
      EnterDuring(run[i].kind, t, run[i].See(t), op);
      EnterActs(run[i].kind, t, run[i].See(t), op);
    } else {
      InsideOperation(run, movers, t, op, i, j, k - 1);
      RunKeeps(run, movers, k - 1);
      RunKeeps(run, movers, i);
      var s, n, mover := run[k - 1], run[k], movers[k - 1];
      assert Step(s, n, mover);
      if mover == t {
        var choice :| Act(s.kind, t, s.See(t), choice).Some? && n == s.Put(t, Act(s.kind, t, s.See(t), choice).value);
        ActDuring(s.kind, t, s.See(t), choice, op, run[i].host.Held(t));
      } else {
        OthersLeave(s, n, mover, t);
      }
    }
  }

  lemma EnterActs(kind: Type, t: nat, v: View, op: Op)
    requires v.pc.Outside?
    ensures Act(kind, t, v, Call(op)) == Some(Enter(v, op))
  {
  }

  /** Whatever the other threads do meanwhile, every operation keeps its contract, and leaves the record exact. */
  lemma OperationContract(run: seq<System>, movers: seq<nat>, t: nat, op: Op, i: nat, j: nat)
    requires Operation(run, movers, t, op, i, j)
    ensures run[j].threads[t].op == op
    ensures Contract(run[i].kind, op, run[i].host.Held(t), run[j].host.Held(t), run[j].threads[t].code)
    ensures run[j].host.Held(t) > 0 ==> run[j].record == Record(Some(t), run[j].host.Held(t))
    ensures run[j].host.Held(t) == 0 ==> run[j].record.owner != Some(t)
  {
    hide Step, HostSound;
    InsideOperation(run, movers, t, op, i, j, j);
    RunKeeps(run, movers, j);
    Tracking(run, movers, j, t);
  }

  lemma {:induction false} Undisturbed(run: seq<System>, movers: seq<nat>, t: nat, i: nat, j: nat)
    requires IsRun(run, movers) && i <= j < |run| && t in run[i].threads
    requires forall k :: i <= k < j ==> movers[k] != t
    ensures t in run[j].threads && run[j].threads[t] == run[i].threads[t] && run[j].host.Held(t) == run[i].host.Held(t)
  {
    hide Inv;
    if i < j {
      Undisturbed(run, movers, t, i, j - 1);
      RunKeeps(run, movers, j - 1);
      OthersLeave(run[j - 1], run[j], movers[j - 1], t);
    }
  }

  /**
   A handoff that begins with 1 gave up a mutex held exactly once; the end that
   follows with 0 holds it exactly once again, and so says the record.
   */
  lemma HandoffRestores(run: seq<System>, movers: seq<nat>, t: nat, i: nat, j: nat, k: nat, l: nat)
    requires Operation(run, movers, t, HandoffBegin, i, j) && run[j].threads[t].code == 1
    requires j <= k && Operation(run, movers, t, HandoffEnd, k, l) && run[l].threads[t].code == 0
    requires forall m :: j <= m < k ==> movers[m] != t
    ensures run[i].host.Held(t) == 1 && run[j].host.Held(t) == 0 && run[l].host.Held(t) == 1
    ensures run[i].record == run[l].record == Record(Some(t), 1)
  {
    hide Step;
    OperationContract(run, movers, t, HandoffBegin, i, j);
    OperationContract(run, movers, t, HandoffEnd, k, l);
    Undisturbed(run, movers, t, j, k);
    Tracking(run, movers, i, t);
    RunKeeps(run, movers, i);
  }

  /** Two threads never hold the mutex, or are recorded as its owner, at once. */
  lemma Exclusive(run: seq<System>, movers: seq<nat>, k: nat, t: nat, u: nat)
    requires IsRun(run, movers) && k < |run| && t in run[k].threads && u in run[k].threads && t != u
    requires run[k].threads[t].Outside? && run[k].record.owner == Some(t)
    ensures run[k].host.Held(u) == 0 && run[k].host.Held(t) == run[k].record.depth > 0
  {
    Tracking(run, movers, k, t);
  }

  /** A thread that relocks a mutex of the normal type blocks in the host, whatever the others do. */
  lemma RelockBlocks(s: System, t: nat)
    requires Inv(s) && t in s.threads && s.kind == Normal && s.host.Owns(t) && s.threads[t].LockCall?
    ensures Act(s.kind, t, s.See(t), Go) == None
  {
  }
}
