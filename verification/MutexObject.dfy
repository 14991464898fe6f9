/**
 The mutex operations of pthread_bridge.c as one thread runs them when nobody
 interrupts; the same contracts hold under interleaving, see MutexTracking.
 */
module MutexObject {
  import opened Wrappers
  import opened MutexTracking

  class BridgeMutex {
    const kind: Type
    var owner: Option<nat>
    var depth: nat
    var host: Host

    ghost predicate Exact()
      reads this
    {
      && (host.count == 0 ==> owner == None && depth == 0)
      && (host.count > 0 ==> owner == Some(host.owner) && depth == host.count)
      && host.count <= (if kind == Recursive then MAX_COUNT else 1)
    }

    /** The record of a thread that has just gained, or is about to give up, one level of the host mutex. */
    ghost predicate OneLess(t: nat)
      reads this
    {
      && host.Owns(t) && host.count <= (if kind == Recursive then MAX_COUNT else 1)
      && (if host.count > 1 then owner == Some(t) && depth == host.count - 1 else owner == None && depth == 0)
    }

    constructor (kind: Type)
      ensures this.kind == kind && Exact() && host.count == 0
    {
      this.kind, owner, depth, host := kind, None, 0, Host(0, 0);
    }

    method RecordAcquired(t: nat)
      requires OneLess(t)
      modifies `owner, `depth
      ensures Exact()
    {
      if owner == Some(t) {
        depth := depth + 1;
        return;
      }
      depth := 1;
      owner := Some(t);
    }

    method RecordReleasing(t: nat) returns (error: int, previous: nat)
      requires Exact()
      modifies `owner, `depth
      ensures error == if host.Owns(t) then 0 else EPERM
      ensures error == 0 ==> OneLess(t) && previous == host.count
      ensures error != 0 ==> Exact()
    {
      if owner != Some(t) || depth == 0 {
        return EPERM, 0;
      }
      previous := depth;
      if depth > 1 {
        depth := depth - 1;
      } else {
        owner := None;
        depth := 0;
      }
      error := 0;
    }

    method RecordRestore(t: nat, previous: nat)
      requires OneLess(t) && previous == host.count
      modifies `owner, `depth
      ensures Exact()
    {
      depth := previous;
      owner := Some(t);
    }

    /** The host's pthread_mutex_lock, when it does not block. */
    method HostLock(t: nat) returns (error: int)
      requires Exact() && (host.count == 0 || (host.owner == t && kind != Normal))
      modifies `host
      ensures error == 0 ==> OneLess(t) && host.count == old(host.Held(t)) + 1
      ensures error != 0 ==> host == old(host) && host.Owns(t)
      ensures error == if host.Owns(t) && old(host.count) > 0 && kind == ErrorCheck then EDEADLK
                       else if old(host.count) == MAX_COUNT then EAGAIN else 0
    {
      if host.count == 0 {
        host := Host(t, 1);
        error := 0;
      } else if kind == ErrorCheck {
        error := EDEADLK;
      } else if host.count == MAX_COUNT {
        error := EAGAIN;
      } else {
        host := Host(t, host.count + 1);
        error := 0;
      }
    }

    method Lock(t: nat) returns (error: int)
      requires Exact() && (host.count == 0 || (host.owner == t && kind != Normal))
      modifies this
      ensures Exact() && Contract(kind, MutexTracking.Lock, old(host.Held(t)), host.Held(t), error)
    {
      error := HostLock(t);
      if error == 0 {
        RecordAcquired(t);
      }
    }

    method TryLock(t: nat) returns (error: int)
      requires Exact()
      modifies this
      ensures Exact() && Contract(kind, MutexTracking.TryLock, old(host.Held(t)), host.Held(t), error)
      ensures forall u :: u != t ==> host.Held(u) == old(host.Held(u))
    {
      if host.count > 0 && (host.owner != t || kind != Recursive) {
        return EBUSY;
      }
      error := HostLock(t);
      if error == 0 {
        RecordAcquired(t);
      }
    }

    /** A positive failure is an error the host reports instead of unlocking. */
    method Unlock(t: nat, failure: nat) returns (error: int)
      requires Exact() && failure != EPERM
      modifies this
      ensures Exact() && Contract(kind, MutexTracking.Unlock, old(host.Held(t)), host.Held(t), error)
      ensures forall u :: u != t ==> host.Held(u) == old(host.Held(u))
    {
      var previous;
      error, previous := RecordReleasing(t);
      if error != 0 {
        return;
      }
      if failure != 0 {
        RecordRestore(t, previous);
        return failure;
      }
      host := Host(host.owner, host.count - 1);
    }

    /** A call that releases the mutex returns 1; one that leaves it returns 0, or an error negated. */
    method HandoffBegin(t: nat, failure: nat) returns (result: int)
      requires Exact() && failure != EPERM
      modifies this
      ensures Exact() && Contract(kind, MutexTracking.HandoffBegin, old(host.Held(t)), host.Held(t), result)
      ensures forall u :: u != t ==> host.Held(u) == old(host.Held(u))
    {
      if owner != Some(t) || depth != 1 {
        return 0;
      }
      var error, previous := RecordReleasing(t);
      if error != 0 {
        return -error;
      }
      if failure != 0 {
        RecordRestore(t, previous);
        result := -(failure as int);
        return;
      }
      host := Host(host.owner, host.count - 1);
      result := 1;
    }

    method HandoffEnd(t: nat, active: bool) returns (error: int, stillActive: bool)
      requires Exact() && (active ==> host.count == 0 || (host.owner == t && kind != Normal))
      modifies this
      ensures Exact() && Contract(kind, MutexTracking.HandoffEnd, old(host.Held(t)), host.Held(t), error)
      ensures stillActive <==> active && error != 0
    {
      if !active {
        return EINVAL, false;
      }
      error := HostLock(t);
      stillActive := error != 0;
      if error == 0 {
        RecordAcquired(t);
      }
    }

    /** The part of a condition wait before the host call; the call itself is made only at depth one. */
    method WaitPrepare(t: nat) returns (error: int)
      requires Exact()
      modifies `owner, `depth
      ensures error == (if !host.Owns(t) then EPERM else if host.count == 1 then 0 else EINVAL)
      ensures if error == 0 then OneLess(t) else Exact()
    {
      var previous;
      error, previous := RecordReleasing(t);
      if error != 0 {
        return;
      }
      if previous != 1 {
        RecordRestore(t, previous);
        return EINVAL;
      }
    }
  }
}
