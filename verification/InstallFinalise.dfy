/**
 Clearing away a transaction that is published or marked: entry by entry, with a
 crash at any moment, after which recovery starts it again.
 */
module InstallFinalise {
  import opened Wrappers
  import opened InstallPaths
  import opened InstallDisk
  import opened InstallCommit
  import opened InstallRecovery

  /** Idle is between processes: the next one calls recover_transaction. */
  datatype Phase = Idle | Backups | Stages | Unlinking | Over

  datatype Cleaning = Cleaning(disk: Disk, saved: Option<Journal>, marker: Option<nat>, phase: Phase)

  predicate Published(journal: Journal, marker: Option<nat>) {
    journal.published || marker == Some(journal.id)
  }

  /** Removals take any entry first. */
  ghost predicate Next(c: Cleaning, n: Cleaning) {
    match c.phase
    case Idle =>
      if c.saved.None? then n == c.(phase := Over)
      else Published(c.saved.value, c.marker) && n == c.(phase := Backups)
    case Backups =>
      || (c.disk.backup == map[] && n == c.(phase := Stages))
      || (exists p :: p in c.disk.backup && n == c.(disk := c.disk.(backup := c.disk.backup - {p})))
    case Stages =>
      || (c.disk.stage == map[] && n == c.(phase := Unlinking))
      || (exists p :: p in c.disk.stage && n == c.(disk := c.disk.(stage := c.disk.stage - {p})))
    case Unlinking => n == c.(saved := None, phase := Over)
    case Over => false
  }

  ghost predicate Step(c: Cleaning, n: Cleaning) {
    Next(c, n) || n == c.(phase := Idle)
  }

  /** After a crash, or at the end of a commit that published. */
  predicate Begins(c: Cleaning) {
    c.saved.Some? && Published(c.saved.value, c.marker) && (c.phase.Idle? || c.phase.Backups?)
  }

  ghost predicate IsRun(run: seq<Cleaning>) {
    run != [] && Begins(run[0]) && forall k :: 0 <= k < |run| - 1 ==> Step(run[k], run[k + 1])
  }

  predicate Inv(c: Cleaning, c0: Cleaning) {
    && c.disk.game == c0.disk.game && c.marker == c0.marker
    && (c.saved == c0.saved || c.saved == None)
    && (c.saved.None? ==> c.disk.backup == map[] && c.disk.stage == map[] && (c.phase.Over? || c.phase.Idle?))
    && (c.phase.Stages? || c.phase.Unlinking? ==> c.disk.backup == map[])
    && (c.phase.Unlinking? ==> c.disk.stage == map[])
    && (c.phase.Over? ==> c.saved.None?)
  }

  lemma StepKeeps(c: Cleaning, n: Cleaning, c0: Cleaning)
    requires Inv(c, c0) && Step(c, n)
    ensures Inv(n, c0)
  {
  }

  lemma {:induction false} RunInv(run: seq<Cleaning>, k: nat)
    requires IsRun(run) && k < |run|
    ensures Inv(run[k], run[0])
  {
    hide Step;
    if k > 0 {
      RunInv(run, k - 1);
      StepKeeps(run[k - 1], run[k], run[0]);
    }
  }

  /**
   However often finalisation is interrupted, after whatever removals: the game
   directory never changes, the journal is gone only once backup and stage are
   empty, recovery means the same at every moment, and what is over has left the
   game alone on disk.
   */
  lemma FinaliseRepeats(run: seq<Cleaning>, k: nat)
    requires IsRun(run) && k < |run|
    ensures run[k].disk.game == run[0].disk.game
    ensures run[k].saved.None? ==> run[k].disk.backup == map[] && run[k].disk.stage == map[]
    ensures Recover(run[k].disk, run[k].saved, run[k].marker) == Finalise(run[0].disk)
    ensures run[k].phase.Over? <==> run[k].saved.None? && !run[k].phase.Idle?
    ensures run[k].phase.Over? ==> run[k].disk == Finalise(run[0].disk)
  {
    RunInv(run, k);
  }

  // ---- It ends ----

  function Rank(c: Cleaning): nat {
    |c.disk.backup| + |c.disk.stage| + match c.phase case Idle => 4 case Backups => 3 case Stages => 2 case Unlinking => 1 case Over => 0
  }

  lemma OneLess(tree: Tree, p: Path)
    requires p in tree
    ensures |tree - {p}| == |tree| - 1
  {
    assert (tree - {p}).Keys == tree.Keys - {p};
    assert |(tree - {p}).Keys| == |tree - {p}| && |tree.Keys| == |tree|;
  }

  lemma NextRank(c: Cleaning, n: Cleaning)
    requires Next(c, n)
    ensures Rank(n) < Rank(c)
  {
    if n.phase == c.phase {
      if c.phase.Backups? {
        var p :| p in c.disk.backup && n == c.(disk := c.disk.(backup := c.disk.backup - {p}));
        OneLess(c.disk.backup, p);
      } else {
        var p :| p in c.disk.stage && n == c.(disk := c.disk.(stage := c.disk.stage - {p}));
        OneLess(c.disk.stage, p);
      }
    }
  }

  /** From every state that is not over there is a next step. */
  lemma CanMove(run: seq<Cleaning>, k: nat) returns (n: Cleaning)
    requires IsRun(run) && k < |run| && !run[k].phase.Over?
    ensures Next(run[k], n)
  {
    RunInv(run, k);
    var c := run[k];
    match c.phase
    case Idle => n := c.(phase := if c.saved.None? then Over else Backups);
    case Backups =>
      if c.disk.backup == map[] {
        n := c.(phase := Stages);
      } else {
        var p :| p in c.disk.backup;
        n := c.(disk := c.disk.(backup := c.disk.backup - {p}));
      }
    case Stages =>
      if c.disk.stage == map[] {
        n := c.(phase := Unlinking);
      } else {
        var p :| p in c.disk.stage;
        n := c.(disk := c.disk.(stage := c.disk.stage - {p}));
      }
    case Unlinking => n := c.(saved := None, phase := Over);
  }

  /** An attempt that is not interrupted takes no more steps than there are entries left, and four. */
  lemma {:induction false} AttemptEnds(run: seq<Cleaning>, i: nat, j: nat)
    requires i <= j < |run|
    requires forall k :: i <= k < j ==> Next(run[k], run[k + 1])
    ensures Rank(run[j]) + (j - i) <= Rank(run[i]) <= |run[i].disk.backup| + |run[i].disk.stage| + 4
    decreases j
  {
    hide Next;
    if i < j {
      AttemptEnds(run, i, j - 1);
      NextRank(run[j - 1], run[j]);
    }
  }

  // ---- At the end of a commit ----

  /**
   From any marked state of a commit, by a crash there or by the commit's own
   removals, and through any later crashes: the game stays all new, and in the
   end nothing else is left.
   */
  lemma CleanUpKeepsNew(first: Disk, paths: seq<Path>, id: nat, before: Option<nat>, steps: nat, run: seq<Cleaning>, k: nat)
    requires Prepared(first, paths) && IsRun(run) && k < |run|
    requires var s := After(Start(first, paths, id, before), steps);
             && Marked(s.pc) && run[0].disk == s.disk && run[0].saved == s.saved && run[0].marker == s.marker
    ensures NewGame(first, run[k].disk, paths)
    ensures run[k].phase.Over? ==> run[k].disk == Finalise(run[k].disk) && run[k].saved == None
  {
    hide Agrees, Start, InstallCommit.Step, PrefixFree, Exists, NewGame, Statuses, ItemsAt, IsRun, Recover;
    var s := After(Start(first, paths, id, before), steps);
    RunKeeps(first, paths, id, before, steps);
    if Undoable(s.pc) {
      AllNew(first, s.disk, paths, s.pc);
    }
    FinaliseRepeats(run, k);
    NewGameStays(first, s.disk, run[k].disk, paths);
  }

  // ---- A crash in the rollback of a late failure ----

  /** The flags of every path are set once the marker is written. */
  lemma LateItem(first: Disk, item: Item, round: Round, p: Path)
    requires Truthful(first, item) && item.installed && item.path <= p
    ensures PartAt(first, RoundStatus(first, StatusOf(item), item, round).game, p)
         == match round
            case Whole(_) => Get(first.game, p)
            case Closed(_) => None
            case _ => Get(first.stage, p)
  {
    hide Exists;
    NothingThere(first, item.path);
    if !item.backedUp {
      NoneBelow(first, Old, item.path, p);
    }
  }

  lemma LateStatus(s: State, first: Disk, paths: seq<Path>, id: nat, before: Option<nat>, cut: Cut, i: nat, p: Path)
    requires InstallCommit.Inv(s, first, paths, id, before) && (s.pc.Publishing? || s.pc.Saving?)
    requires Describes(first, s.disk, paths, s.memory.items) && CutOf(cut, |paths|) && i < |paths| && paths[i] <= p
    ensures |s.memory.items| == |paths|
    ensures Get(Interrupted(s.disk, s.memory.items, cut).game, p)
         == match RoundOf(cut, i)
            case Whole(_) => Get(first.game, p)
            case Closed(_) => None
            case _ => Get(first.stage, p)
  {
    hide Agrees, PrefixFree, Exists, Interrupted, RoundStatus, StatusOf, PartAt, RoundOf, NewGame;
    var items := s.memory.items;
    var st := Statuses(items);
    InterruptedAgrees(first, s.disk, paths, st, items, cut);
    PartsAt(first, Interrupted(s.disk, items, cut), paths, InterruptedStatuses(first, st, items, cut), i, p);
    LateItem(first, items[i], RoundOf(cut, i), p);
  }

  /**
   After the marker is written an error is rolled back, but a crash during that
   rollback finds the marker and finalises, and backup and stage are gone.  A
   path whose round was done holds the old tree; one between its two renames
   holds nothing; one whose installed tree was still there holds the new tree.
   */
  lemma LateRollbackCrash(first: Disk, paths: seq<Path>, id: nat, before: Option<nat>, steps: nat, cut: Cut)
    requires Prepared(first, paths) && CutOf(cut, |paths|)
    requires var pc := After(Start(first, paths, id, before), steps).pc; pc.Publishing? || pc.Saving?
    ensures |After(Start(first, paths, id, before), steps).memory.items| == |paths|
    ensures var s := After(Start(first, paths, id, before), steps);
            var r := Recover(Interrupted(s.disk, s.memory.items, cut), s.saved, s.marker);
            && r.backup == map[] && r.stage == map[]
            && (forall i, p :: 0 <= i < |paths| && paths[i] <= p ==>
                  Get(r.game, p) == match RoundOf(cut, i)
                                    case Whole(_) => Get(first.game, p)
                                    case Closed(_) => None
                                    case _ => Get(first.stage, p))
            && (forall p :: !Under(paths, p) ==> Get(r.game, p) == Get(first.game, p))
  {
    hide Agrees, PrefixFree, Exists, Start, InstallCommit.Step, Interrupted, RoundOf, Statuses, ItemsAt, NewGame, Truthful;
    RunDescribes(first, paths, id, before, steps);
    var s := After(Start(first, paths, id, before), steps);
    var n := Interrupted(s.disk, s.memory.items, cut);
    forall i, p | 0 <= i < |paths| && paths[i] <= p
      ensures Get(n.game, p) == match RoundOf(cut, i)
                                case Whole(_) => Get(first.game, p)
                                case Closed(_) => None
                                case _ => Get(first.stage, p)
    {
      LateStatus(s, first, paths, id, before, cut, i, p);
    }
    forall p | !Under(paths, p)
      ensures Get(n.game, p) == Get(first.game, p)
    {
      InterruptedAgrees(first, s.disk, paths, Statuses(s.memory.items), s.memory.items, cut);
      Elsewhere(first, n, paths, InterruptedStatuses(first, Statuses(s.memory.items), s.memory.items, cut), p);
    }
  }

  ghost predicate SameBelow(a: Tree, b: Tree, root: Path) {
    forall p :: root <= p ==> Get(a, p) == Get(b, p)
  }

  /**
   Exactly when a path still has any tree after that, its old one, or its new
   one.  A path that had a tree loses both trees if the crash comes between its
   two renames; otherwise it keeps one and loses the other.
   */
  lemma LateSurvivors(first: Disk, paths: seq<Path>, id: nat, before: Option<nat>, steps: nat, cut: Cut, i: nat)
    requires Prepared(first, paths) && CutOf(cut, |paths|) && i < |paths|
    requires var pc := After(Start(first, paths, id, before), steps).pc; pc.Publishing? || pc.Saving?
    ensures |After(Start(first, paths, id, before), steps).memory.items| == |paths|
    ensures var s := After(Start(first, paths, id, before), steps);
            var r := Recover(Interrupted(s.disk, s.memory.items, cut), s.saved, s.marker);
            var done, gone, root := RoundOf(cut, i).Whole?, RoundOf(cut, i).Closed?, paths[i];
            && (Exists(r.game, root) <==> !gone && (done ==> Exists(first.game, root)))
            && (SameBelow(r.game, first.game, root)
                <==> done || (if gone then !Exists(first.game, root) else SameBelow(first.stage, first.game, root)))
            && (SameBelow(r.game, first.stage, root) <==> !gone && (done ==> SameBelow(first.game, first.stage, root)))
  {
    hide Agrees, PrefixFree, Start, InstallCommit.Step, Interrupted, RoundOf, Recover;
    LateRollbackCrash(first, paths, id, before, steps, cut);
    var s := After(Start(first, paths, id, before), steps);
    var r := Recover(Interrupted(s.disk, s.memory.items, cut), s.saved, s.marker);
    var root := paths[i];
    if RoundOf(cut, i).Closed? {
      NothingBelow(r.game, root);
      NothingBelow(first.game, root);
      assert Exists(first.stage, root);
      var p := EntryOf(first.stage, root);
      assert Get(r.game, p) != Get(first.stage, p);
      if !Exists(first.game, root) {
        assert SameBelow(r.game, first.game, root);
      } else {
        var q := EntryOf(first.game, root);
        assert Get(r.game, q) != Get(first.game, q);
      }
    } else {
      var tree := if RoundOf(cut, i).Whole? then first.game else first.stage;
      assert SameBelow(r.game, tree, root);
      SameBelowExists(r.game, tree, root);
      SameBelowBoth(r.game, tree, first.game, root);
      SameBelowBoth(r.game, tree, first.stage, root);
    }
  }

  lemma NothingBelow(tree: Tree, root: Path)
    ensures Exists(tree, root) <==> exists p :: root <= p && Get(tree, p) != None
  {
    if Exists(tree, root) {
      var p :| p in tree && root <= p;
      assert Get(tree, p) != None;
    }
  }

  lemma SameBelowExists(a: Tree, b: Tree, root: Path)
    requires SameBelow(a, b, root)
    ensures Exists(a, root) <==> Exists(b, root)
  {
    NothingBelow(a, root);
    NothingBelow(b, root);
  }

  lemma SameBelowBoth(a: Tree, b: Tree, c: Tree, root: Path)
    requires SameBelow(a, b, root)
    ensures SameBelow(a, c, root) <==> SameBelow(b, c, root)
    ensures SameBelow(b, c, root) <==> SameBelow(c, b, root)
  {
  }
}
