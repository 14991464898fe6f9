/**
 Rollback that is interrupted, any number of times and anywhere: in one round of
 its loop, inside a removal, or in the removal of the backup after the loop.
 */
module InstallRecovery {
  import opened Wrappers
  import opened InstallPaths
  import opened InstallDisk
  import opened InstallCommit

  // ---- One interrupted attempt ----

  /** The disk once the rollback loop has handled the items from k on. */
  function UndoFrom(d: Disk, items: seq<Item>, k: nat): Disk
    requires k <= |items|
    decreases |items| - k
  {
    if k == |items| then d else Undo(UndoFrom(d, items, k + 1), items[k])
  }

  /**
   Where an attempt is interrupted: in round k before the installed tree is
   away, in round k before the backup is back, or after the loop.  If a tree is
   being removed there, the entries gone are those that are removed already.
   */
  datatype Cut = Opening(k: nat, gone: set<Path>) | Closing(k: nat, gone: set<Path>) | AfterLoop(gone: set<Path>)

  predicate CutOf(cut: Cut, n: nat) {
    cut.AfterLoop? || cut.k < n
  }

  function Open(d: Disk, item: Item, gone: set<Path>): Disk {
    if item.installed && Exists(d.game, item.path) && Exists(d.stage, item.path)
    then d.(game := Prune(d.game, item.path, gone)) else d
  }

  function Close(d: Disk, item: Item, gone: set<Path>): Disk {
    if item.backedUp && Exists(d.backup, item.path) && Exists(d.game, item.path)
    then d.(game := Prune(d.game, item.path, gone)) else d
  }

  function Interrupted(d: Disk, items: seq<Item>, cut: Cut): Disk
    requires CutOf(cut, |items|)
  {
    match cut
    case Opening(k, gone) => Open(UndoFrom(d, items, k + 1), items[k], gone)
    case Closing(k, gone) => Close(UndoInstall(UndoFrom(d, items, k + 1), items[k]), items[k], gone)
    case AfterLoop(gone) => var u := UndoFrom(d, items, 0); u.(backup := Prune(u.backup, [], gone))
  }

  /**
   Attempts one after the other.  The first is the rollback of the process that
   failed, which reads the flags in memory; the others are recoveries, which
   read the journal on disk.  Opening the last item is no attempt at all.
   */
  function Attempts(d: Disk, memory: seq<Item>, saved: seq<Item>, cuts: seq<Cut>): Disk
    requires |memory| == |saved| && forall j :: 0 <= j < |cuts| ==> CutOf(cuts[j], |memory|)
  {
    var n := |cuts|;
    if n == 0 then d
    else Interrupted(Attempts(d, memory, saved, cuts[..n - 1]), if n == 1 then memory else saved, cuts[n - 1])
  }

  // ---- The same on statuses ----

  /** How much of an item's round an interrupted attempt did. */
  datatype Round = Never | Opened(gone: set<Path>) | Closed(gone: set<Path>) | Whole(gone: set<Path>)

  function RoundOf(cut: Cut, i: nat): Round {
    match cut
    case Opening(k, gone) => if i > k then Whole({}) else if i == k then Opened(gone) else Never
    case Closing(k, gone) => if i > k then Whole({}) else if i == k then Closed(gone) else Never
    case AfterLoop(gone) => Whole(gone)
  }

  function RoundsOf(cuts: seq<Cut>, i: nat): (r: seq<Round>)
    ensures |r| == |cuts|
  {
    seq(|cuts|, j requires 0 <= j < |cuts| => RoundOf(cuts[j], i))
  }

  function OpenStatus(first: Disk, st: Status, item: Item, gone: set<Path>): Status {
    if item.installed && PartExists(first, st.game, item.path) && PartExists(first, st.stage, item.path)
    then st.(game := Pruned(st.game, gone)) else st
  }

  function CloseStatus(first: Disk, st: Status, item: Item, gone: set<Path>): Status {
    if item.backedUp && PartExists(first, st.backup, item.path) && PartExists(first, st.game, item.path)
    then st.(game := Pruned(st.game, gone)) else st
  }

  function RoundStatus(first: Disk, st: Status, item: Item, round: Round): Status {
    match round
    case Never => st
    case Opened(gone) => OpenStatus(first, st, item, gone)
    case Closed(gone) => CloseStatus(first, UndoInstallStatus(first, st, item), item, gone)
    case Whole(gone) => var u := UndoStatus(first, st, item); u.(backup := Pruned(u.backup, gone))
  }

  function InterruptedStatuses(first: Disk, st: seq<Status>, items: seq<Item>, cut: Cut): (r: seq<Status>)
    requires |items| == |st|
    ensures |r| == |st|
  {
    seq(|st|, i requires 0 <= i < |st| => RoundStatus(first, st[i], items[i], RoundOf(cut, i)))
  }

  function UndoneFrom(first: Disk, st: seq<Status>, items: seq<Item>, k: nat): (r: seq<Status>)
    requires |items| == |st|
    ensures |r| == |st|
  {
    seq(|st|, i requires 0 <= i < |st| => if i >= k then UndoStatus(first, st[i], items[i]) else st[i])
  }

  lemma {:induction false} UndoFromAgrees(first: Disk, d: Disk, paths: seq<Path>, st: seq<Status>, items: seq<Item>, k: nat)
    requires Agrees(first, d, paths, st) && PrefixFree(paths) && Names(items, paths) && |items| == |paths| == |st| && k <= |items|
    ensures Agrees(first, UndoFrom(d, items, k), paths, UndoneFrom(first, st, items, k))
    decreases |items| - k
  {
    hide Agrees, PrefixFree, Undo, UndoStatus;
    if k == |items| {
      assert UndoneFrom(first, st, items, k) == st;
    } else {
      UndoFromAgrees(first, d, paths, st, items, k + 1);
      var after := UndoneFrom(first, st, items, k + 1);
      UndoAgrees(first, UndoFrom(d, items, k + 1), paths, after, k, items[k]);
      assert after[k := UndoStatus(first, st[k], items[k])] == UndoneFrom(first, st, items, k);
    }
  }

  lemma OpenAgrees(first: Disk, d: Disk, paths: seq<Path>, st: seq<Status>, k: nat, item: Item, gone: set<Path>)
    requires Agrees(first, d, paths, st) && PrefixFree(paths) && k < |paths| && k < |st| && item.path == paths[k]
    ensures Agrees(first, Open(d, item, gone), paths, st[k := OpenStatus(first, st[k], item, gone)])
  {
    hide Agrees, PartExists, Exists, PrefixFree, Prune, Pruned;
    ExistsAgrees(first, d, paths, st, k);
    PruneGameAgrees(first, d, paths, st, k, gone);
    assert st[k := st[k]] == st;
  }

  lemma CloseAgrees(first: Disk, d: Disk, paths: seq<Path>, st: seq<Status>, k: nat, item: Item, gone: set<Path>)
    requires Agrees(first, d, paths, st) && PrefixFree(paths) && k < |paths| && k < |st| && item.path == paths[k]
    ensures Agrees(first, Close(d, item, gone), paths, st[k := CloseStatus(first, st[k], item, gone)])
  {
    hide Agrees, PartExists, Exists, PrefixFree, Prune, Pruned;
    ExistsAgrees(first, d, paths, st, k);
    PruneGameAgrees(first, d, paths, st, k, gone);
    assert st[k := st[k]] == st;
  }

  lemma NothingPruned(part: Part)
    ensures Pruned(part, {}) == part
  {
  }

  lemma InterruptedAgrees(first: Disk, d: Disk, paths: seq<Path>, st: seq<Status>, items: seq<Item>, cut: Cut)
    requires Agrees(first, d, paths, st) && PrefixFree(paths) && Names(items, paths) && |items| == |paths| == |st|
    requires CutOf(cut, |items|)
    ensures Agrees(first, Interrupted(d, items, cut), paths, InterruptedStatuses(first, st, items, cut))
  {
    hide Agrees, PrefixFree, Undo, UndoStatus, UndoInstall, UndoInstallStatus, Open, OpenStatus, Close, CloseStatus, Prune, Pruned;
    var from := if cut.AfterLoop? then 0 else cut.k + 1;
    UndoFromAgrees(first, d, paths, st, items, from);
    var u, after := UndoFrom(d, items, from), UndoneFrom(first, st, items, from);
    forall i | 0 <= i < |st|
      ensures Pruned(UndoStatus(first, st[i], items[i]).backup, {}) == UndoStatus(first, st[i], items[i]).backup
    {
      NothingPruned(UndoStatus(first, st[i], items[i]).backup);
    }
    match cut
    case Opening(k, gone) =>
      OpenAgrees(first, u, paths, after, k, items[k], gone);
      assert after[k := OpenStatus(first, st[k], items[k], gone)] == InterruptedStatuses(first, st, items, cut);
    case Closing(k, gone) =>
      UndoInstallAgrees(first, u, paths, after, k, items[k]);
      var half := after[k := UndoInstallStatus(first, st[k], items[k])];
      CloseAgrees(first, UndoInstall(u, items[k]), paths, half, k, items[k], gone);
      assert half[k := CloseStatus(first, half[k], items[k], gone)] == InterruptedStatuses(first, st, items, cut);
    case AfterLoop(gone) =>
      PruneBackupAgrees(first, u, paths, after, gone);
      assert seq(|after|, i requires 0 <= i < |after| => after[i].(backup := Pruned(after[i].backup, gone)))
          == InterruptedStatuses(first, st, items, cut);
  }

  /** What the attempts make of one item, whose flags are m in memory and s on disk. */
  function ItemStatus(first: Disk, m: Item, s: Item, rounds: seq<Round>): Status {
    var n := |rounds|;
    if n == 0 then StatusOf(m)
    else RoundStatus(first, ItemStatus(first, m, s, rounds[..n - 1]), if n == 1 then m else s, rounds[n - 1])
  }

  function AttemptStatuses(first: Disk, memory: seq<Item>, saved: seq<Item>, cuts: seq<Cut>): (r: seq<Status>)
    requires |memory| == |saved|
    ensures |r| == |memory|
  {
    seq(|memory|, i requires 0 <= i < |memory| => ItemStatus(first, memory[i], saved[i], RoundsOf(cuts, i)))
  }

  /** A disk on which a commit has failed: the flags in memory describe it. */
  ghost predicate Describes(first: Disk, d: Disk, paths: seq<Path>, memory: seq<Item>) {
    && Prepared(first, paths) && |memory| == |paths| && Names(memory, paths)
    && Agrees(first, d, paths, Statuses(memory))
    && forall i :: 0 <= i < |memory| ==> Truthful(first, memory[i])
  }

  /** The journal on disk may lack the flag of the last rename. */
  predicate Lags(m: Item, s: Item) {
    || s == m
    || (m.backedUp && !m.installed && s == m.(backedUp := false))
    || (m.installed && s == m.(installed := false))
  }

  predicate AllLag(memory: seq<Item>, saved: seq<Item>) {
    |memory| == |saved| && forall i :: 0 <= i < |memory| ==> Lags(memory[i], saved[i])
  }

  predicate AllCuts(cuts: seq<Cut>, n: nat) {
    forall j :: 0 <= j < |cuts| ==> CutOf(cuts[j], n)
  }

  lemma {:induction false} AttemptsAgree(first: Disk, d: Disk, paths: seq<Path>, memory: seq<Item>, saved: seq<Item>, cuts: seq<Cut>)
    requires Agrees(first, d, paths, Statuses(memory)) && PrefixFree(paths) && Names(memory, paths) && |memory| == |paths|
    requires AllLag(memory, saved) && AllCuts(cuts, |memory|)
    ensures Agrees(first, Attempts(d, memory, saved, cuts), paths, AttemptStatuses(first, memory, saved, cuts))
    decreases |cuts|
  {
    hide Agrees, PrefixFree, Interrupted, RoundStatus, StatusOf;
    var n := |cuts|;
    if n == 0 {
      assert AttemptStatuses(first, memory, saved, cuts) == Statuses(memory);
    } else {
      var fewer, flags := cuts[..n - 1], if n == 1 then memory else saved;
      AttemptsAgree(first, d, paths, memory, saved, fewer);
      var st := AttemptStatuses(first, memory, saved, fewer);
      InterruptedAgrees(first, Attempts(d, memory, saved, fewer), paths, st, flags, cuts[n - 1]);
      forall i | 0 <= i < |memory|
        ensures ItemStatus(first, memory[i], saved[i], RoundsOf(cuts, i)) == InterruptedStatuses(first, st, flags, cuts[n - 1])[i]
      {
        assert RoundsOf(cuts, i)[..n - 1] == RoundsOf(fewer, i);
      }
      assert AttemptStatuses(first, memory, saved, cuts) == InterruptedStatuses(first, st, flags, cuts[n - 1]);
    }
  }

  // ---- One item ----

  predicate Both(item: Item) {
    item.backedUp && item.installed
  }

  predicate SomeWhole(rounds: seq<Round>) {
    exists j :: 0 <= j < |rounds| && rounds[j].Whole?
  }

  predicate FirstWhole(rounds: seq<Round>) {
    rounds != [] && rounds[0].Whole?
  }

  /** The first attempt took the installed tree away. */
  predicate FirstHalf(rounds: seq<Round>) {
    rounds != [] && (rounds[0].Whole? || rounds[0].Closed?)
  }

  /** What is known of an item's status after any attempts. */
  predicate Reached(m: Item, s: Item, rounds: seq<Round>, st: Status) {
    if s.backedUp && s.installed then
      if SomeWhole(rounds) then st.stage == New && st.backup == Nothing
      else st == Status(New, Nothing, Old) || st == Status(Nothing, New, Old)
    else if m.backedUp && m.installed then
      if FirstHalf(rounds) then st == Status(Nothing, New, Old) || st == Status(Old, New, Nothing)
      else st.stage == Nothing && (st.backup == Old || (st.game == Old && st.backup == Nothing))
    else if m.installed then
      if s.installed || !FirstHalf(rounds) then st == Status(New, Nothing, Nothing) || (s.installed && st == Status(Nothing, New, Nothing))
      else st == Status(Nothing, New, Nothing)
    else if s.backedUp then st == Status(Nothing, New, Old) || st == Status(Old, New, Nothing)
    else if m.backedUp && !FirstWhole(rounds) then st.game == Nothing && st.stage == New
    else st.game == Old && st.stage == New
  }

  /** The rounds of the first attempt are done on the flags in memory, which describe the item. */
  lemma FirstRound(first: Disk, m: Item, s: Item, round: Round)
    requires Truthful(first, m) && Lags(m, s)
    ensures Reached(m, s, [round], RoundStatus(first, StatusOf(m), m, round))
  {
    hide Exists;
    NothingThere(first, m.path);
    assert [round][0] == round;
  }

  /** The others are done on the flags on disk. */
  lemma LaterRound(first: Disk, m: Item, s: Item, rounds: seq<Round>, st: Status, round: Round)
    requires Truthful(first, m) && Lags(m, s) && rounds != [] && Reached(m, s, rounds, st)
    ensures Reached(m, s, rounds + [round], RoundStatus(first, st, s, round))
  {
    hide Exists, Reached, RoundStatus, SomeWhole;
    if s.backedUp && s.installed {
      LaterBoth(first, m, s, rounds, st, round);
    } else if s.installed || s.backedUp {
      LaterOne(first, m, s, rounds, st, round);
    } else {
      LaterNone(first, m, s, rounds, st, round);
    }
  }

  lemma OneMore(rounds: seq<Round>, round: Round)
    ensures SomeWhole(rounds + [round]) <==> SomeWhole(rounds) || round.Whole?
    ensures rounds != [] ==> (rounds + [round])[0] == rounds[0]
  {
    if SomeWhole(rounds) {
      var j :| 0 <= j < |rounds| && rounds[j].Whole?;
      assert (rounds + [round])[j].Whole?;
    }
    assert (rounds + [round])[|rounds|] == round;
  }

  lemma LaterBoth(first: Disk, m: Item, s: Item, rounds: seq<Round>, st: Status, round: Round)
    requires Truthful(first, m) && Lags(m, s) && rounds != [] && Reached(m, s, rounds, st) && s.backedUp && s.installed
    ensures Reached(m, s, rounds + [round], RoundStatus(first, st, s, round))
  {
    hide Exists, SomeWhole;
    OneMore(rounds, round);
    NothingThere(first, m.path);
  }

  lemma LaterOne(first: Disk, m: Item, s: Item, rounds: seq<Round>, st: Status, round: Round)
    requires Truthful(first, m) && Lags(m, s) && rounds != [] && Reached(m, s, rounds, st) && s.backedUp != s.installed
    ensures Reached(m, s, rounds + [round], RoundStatus(first, st, s, round))
  {
    hide Exists, SomeWhole;
    OneMore(rounds, round);
    NothingThere(first, m.path);
  }

  lemma LaterNone(first: Disk, m: Item, s: Item, rounds: seq<Round>, st: Status, round: Round)
    requires Truthful(first, m) && Lags(m, s) && rounds != [] && Reached(m, s, rounds, st) && !s.backedUp && !s.installed
    ensures Reached(m, s, rounds + [round], RoundStatus(first, st, s, round))
  {
    hide Exists, SomeWhole;
    OneMore(rounds, round);
    NothingThere(first, m.path);
  }

  lemma {:induction false} ItemReached(first: Disk, m: Item, s: Item, rounds: seq<Round>)
    requires Truthful(first, m) && Lags(m, s)
    ensures Reached(m, s, rounds, ItemStatus(first, m, s, rounds))
    decreases |rounds|
  {
    hide Exists, RoundStatus, Truthful, Lags;
    var n := |rounds|;
    if n == 0 {
      NoRounds(first, m, s);
    } else {
      var fewer, last := rounds[..n - 1], rounds[n - 1];
      assert rounds == fewer + [last];
      if n == 1 {
        assert fewer == [];
        FirstRound(first, m, s, last);
      } else {
        ItemReached(first, m, s, fewer);
        LaterRound(first, m, s, fewer, ItemStatus(first, m, s, fewer), last);
      }
    }
  }

  lemma NoRounds(first: Disk, m: Item, s: Item)
    requires Truthful(first, m) && Lags(m, s)
    ensures Reached(m, s, [], StatusOf(m))
  {
    hide Exists;
  }

  /** The rounds after which a last, uninterrupted attempt restores the item's old tree. */
  predicate Recovers(m: Item, s: Item, rounds: seq<Round>) {
    if Both(s) then !SomeWhole(rounds)
    else if m.backedUp && !s.backedUp then FirstWhole(rounds)
    else if m.installed && !s.installed && !m.backedUp then FirstHalf(rounds)
    else true
  }

  /** The rounds after which it also has the staged tree back in the stage. */
  predicate RecoversStage(m: Item, s: Item, rounds: seq<Round>) {
    m.installed && !s.installed ==> FirstHalf(rounds)
  }

  lemma ItemRecovers(first: Disk, m: Item, s: Item, rounds: seq<Round>, p: Path)
    requires Truthful(first, m) && Lags(m, s) && m.path <= p
    requires Recovers(m, s, rounds)
    ensures PartAt(first, UndoStatus(first, ItemStatus(first, m, s, rounds), s).game, p) == Get(first.game, p)
  {
    hide Exists;
    ItemReached(first, m, s, rounds);
    NothingThere(first, m.path);
    if m.installed && !m.backedUp {
      NoneBelow(first, Old, m.path, p);
    }
  }

  lemma ItemLost(first: Disk, m: Item, s: Item, rounds: seq<Round>)
    requires Truthful(first, m) && Lags(m, s) && !Recovers(m, s, rounds)
    ensures exists p :: m.path <= p
              && PartAt(first, UndoStatus(first, ItemStatus(first, m, s, rounds), s).game, p) != Get(first.game, p)
  {
    hide Exists;
    ItemReached(first, m, s, rounds);
    NothingThere(first, m.path);
    var game := UndoStatus(first, ItemStatus(first, m, s, rounds), s).game;
    if m.backedUp {
      var p := EntryOf(first.game, m.path);
      NoneBelowIf(first, game, m.path, p);
      assert PartAt(first, game, p) != Get(first.game, p);
    } else {
      var p := EntryOf(first.stage, m.path);
      NoneBelow(first, Old, m.path, p);
      assert PartAt(first, game, p) != Get(first.game, p);
    }
  }

  lemma EntryOf(tree: Tree, root: Path) returns (p: Path)
    requires Exists(tree, root)
    ensures p in tree && root <= p && Get(tree, p).Some?
  {
    p :| p in tree && root <= p;
  }

  lemma NoneBelowIf(first: Disk, part: Part, root: Path, p: Path)
    requires root <= p
    ensures !PartExists(first, part, root) ==> PartAt(first, part, p) == None
  {
  }

  lemma ItemStage(first: Disk, m: Item, s: Item, rounds: seq<Round>)
    requires Truthful(first, m) && Lags(m, s)
    ensures UndoStatus(first, ItemStatus(first, m, s, rounds), s).stage == if RecoversStage(m, s, rounds) then New else Nothing
  {
    hide Exists;
    ItemReached(first, m, s, rounds);
    NothingThere(first, m.path);
  }

  // ---- Every item ----

  ghost predicate AllRecover(memory: seq<Item>, saved: seq<Item>, cuts: seq<Cut>)
    requires |memory| == |saved|
  {
    forall i :: 0 <= i < |memory| ==> Recovers(memory[i], saved[i], RoundsOf(cuts, i))
  }

  ghost predicate AllRecoverStage(memory: seq<Item>, saved: seq<Item>, cuts: seq<Cut>)
    requires |memory| == |saved|
  {
    forall i :: 0 <= i < |memory| ==> RecoversStage(memory[i], saved[i], RoundsOf(cuts, i))
  }

  lemma LastAttempt(first: Disk, d: Disk, paths: seq<Path>, memory: seq<Item>, saved: seq<Item>, cuts: seq<Cut>)
    returns (st: seq<Status>)
    requires Describes(first, d, paths, memory) && AllLag(memory, saved) && AllCuts(cuts, |memory|)
    ensures |st| == |memory|
    ensures Agrees(first, UndoAll(Attempts(d, memory, saved, cuts), saved), paths, st)
    ensures forall i :: 0 <= i < |st| ==>
              st[i] == UndoStatus(first, ItemStatus(first, memory[i], saved[i], RoundsOf(cuts, i)), saved[i])
  {
    hide Agrees, PrefixFree, Truthful, ItemStatus, UndoStatus, Statuses;
    AttemptsAgree(first, d, paths, memory, saved, cuts);
    var reached := AttemptStatuses(first, memory, saved, cuts);
    UndoAllAgrees(first, Attempts(d, memory, saved, cuts), paths, reached, saved);
    st := UndoneStatuses(first, reached, saved);
  }

  /** After any attempts the last one restores the game directory exactly when it restores every item. */
  lemma GameRestored(first: Disk, d: Disk, paths: seq<Path>, memory: seq<Item>, saved: seq<Item>, cuts: seq<Cut>)
    requires Describes(first, d, paths, memory) && AllLag(memory, saved) && AllCuts(cuts, |memory|)
    ensures RollBack(Attempts(d, memory, saved, cuts), saved).game == first.game <==> AllRecover(memory, saved, cuts)
  {
    hide Agrees, PrefixFree, Truthful, ItemStatus, UndoStatus, Statuses, Recovers, Lags, Attempts, UndoAll, PartAt;
    var st := LastAttempt(first, d, paths, memory, saved, cuts);
    var r := UndoAll(Attempts(d, memory, saved, cuts), saved);
    if i :| 0 <= i < |memory| && !Recovers(memory[i], saved[i], RoundsOf(cuts, i)) {
      ItemLost(first, memory[i], saved[i], RoundsOf(cuts, i));
      var p :| memory[i].path <= p && PartAt(first, st[i].game, p) != Get(first.game, p);
      PartsAt(first, r, paths, st, i, p);
    } else {
      forall i, p | 0 <= i < |paths| && paths[i] <= p
        ensures PartAt(first, st[i].game, p) == Get(first.game, p)
      {
        ItemRecovers(first, memory[i], saved[i], RoundsOf(cuts, i), p);
      }
      AllOld(first, r, paths, st);
    }
  }

  lemma StageRestored(first: Disk, d: Disk, paths: seq<Path>, memory: seq<Item>, saved: seq<Item>, cuts: seq<Cut>)
    requires Describes(first, d, paths, memory) && AllLag(memory, saved) && AllCuts(cuts, |memory|)
    ensures RollBack(Attempts(d, memory, saved, cuts), saved).stage == first.stage <==> AllRecoverStage(memory, saved, cuts)
  {
    hide Agrees, PrefixFree, Exists, ItemStatus, UndoStatus, Statuses, RecoversStage, Lags, Attempts, UndoAll, PartAt;
    var st := LastAttempt(first, d, paths, memory, saved, cuts);
    var r := UndoAll(Attempts(d, memory, saved, cuts), saved);
    forall i | 0 <= i < |memory|
      ensures st[i].stage == if RecoversStage(memory[i], saved[i], RoundsOf(cuts, i)) then New else Nothing
    {
      ItemStage(first, memory[i], saved[i], RoundsOf(cuts, i));
    }
    if i :| 0 <= i < |memory| && !RecoversStage(memory[i], saved[i], RoundsOf(cuts, i)) {
      var p := EntryOf(first.stage, memory[i].path);
      PartsAt(first, r, paths, st, i, p);
      NothingAt(first, p);
    } else {
      forall i, p | 0 <= i < |paths| && paths[i] <= p
        ensures PartAt(first, st[i].stage, p) == Get(first.stage, p)
      {
        NewAt(first, p);
      }
      AllStaged(first, r, paths, st);
    }
  }

  lemma NothingAt(first: Disk, p: Path)
    ensures PartAt(first, Nothing, p) == None
  {
  }

  lemma NewAt(first: Disk, p: Path)
    ensures PartAt(first, New, p) == Get(first.stage, p)
  {
  }

  // ---- The rollback run again ----

  /** The attempt did the whole round of item i. */
  predicate Handled(cut: Cut, i: nat) {
    RoundOf(cut, i).Whole?
  }

  /** The attempt did at least the first half of it. */
  predicate HalfHandled(cut: Cut, i: nat) {
    RoundOf(cut, i).Whole? || RoundOf(cut, i).Closed?
  }

  /** No path with both flags was wholly handled by any attempt. */
  ghost predicate NoneTwice(items: seq<Item>, cuts: seq<Cut>) {
    forall i, j :: 0 <= i < |items| && 0 <= j < |cuts| && Both(items[i]) ==> !Handled(cuts[j], i)
  }

  lemma NoneTwiceRounds(items: seq<Item>, cuts: seq<Cut>)
    ensures NoneTwice(items, cuts) <==> forall i :: 0 <= i < |items| && Both(items[i]) ==> !SomeWhole(RoundsOf(cuts, i))
  {
    hide Both, RoundOf;
    forall i, j | 0 <= i < |items| && 0 <= j < |cuts|
      ensures RoundsOf(cuts, i)[j] == RoundOf(cuts[j], i)
    {
    }
    if !NoneTwice(items, cuts) {
      var i, j :| 0 <= i < |items| && 0 <= j < |cuts| && Both(items[i]) && Handled(cuts[j], i);
      assert RoundsOf(cuts, i)[j].Whole?;
    } else {
      forall i, j | 0 <= i < |items| && Both(items[i]) && 0 <= j < |RoundsOf(cuts, i)|
        ensures !RoundsOf(cuts, i)[j].Whole?
      {
        assert !Handled(cuts[j], i);
      }
    }
  }

  /**
   A rollback interrupted any number of times, anywhere, and run to its end
   restores the disk of before the commit, game and stage, if and only if no
   attempt wholly handled a path that was both backed up and installed; and
   otherwise not even the game.
   */
  lemma RerunRestoresExactly(first: Disk, d: Disk, paths: seq<Path>, items: seq<Item>, cuts: seq<Cut>)
    requires Describes(first, d, paths, items) && AllCuts(cuts, |items|)
    ensures RollBack(Attempts(d, items, items, cuts), items) == first <==> NoneTwice(items, cuts)
    ensures RollBack(Attempts(d, items, items, cuts), items).game == first.game <==> NoneTwice(items, cuts)
  {
    hide Agrees, PrefixFree, Truthful, Statuses, Attempts, UndoAll, AllCuts, SomeWhole;
    GameRestored(first, d, paths, items, items, cuts);
    StageRestored(first, d, paths, items, items, cuts);
    NoneTwiceRounds(items, cuts);
  }

  /** In particular the rollback of a fresh installation can be interrupted anywhere, as often as one likes. */
  lemma FreshRollbackRestarts(first: Disk, d: Disk, paths: seq<Path>, items: seq<Item>, cuts: seq<Cut>)
    requires Describes(first, d, paths, items) && AllCuts(cuts, |items|)
    requires forall i :: 0 <= i < |items| ==> !items[i].backedUp
    ensures RollBack(Attempts(d, items, items, cuts), items) == first
  {
    hide Describes, RollBack, Attempts, AllCuts;
    RerunRestoresExactly(first, d, paths, items, cuts);
  }

  // ---- From every state of a commit ----

  lemma RunDescribes(first: Disk, paths: seq<Path>, id: nat, before: Option<nat>, steps: nat)
    requires Prepared(first, paths) && Undoable(After(Start(first, paths, id, before), steps).pc)
    ensures var s := After(Start(first, paths, id, before), steps);
            Inv(s, first, paths, id, before) && Describes(first, s.disk, paths, s.memory.items)
  {
    hide Agrees, Statuses, Start, Step, Exists, PrefixFree, Truthful;
    RunKeeps(first, paths, id, before, steps);
    var s := After(Start(first, paths, id, before), steps);
    forall i | 0 <= i < |paths|
      ensures Truthful(first, s.memory.items[i]) && s.memory.items[i].path == paths[i]
    {
      ItemsTruthful(first, paths, s.pc, i);
    }
  }

  lemma JournalLags(s: State, first: Disk, paths: seq<Path>, id: nat, before: Option<nat>)
    requires Inv(s, first, paths, id, before) && Undoable(s.pc)
    ensures s.saved.Some? && AllLag(s.memory.items, s.saved.value.items) && |s.memory.items| == |paths|
    ensures forall i :: 0 <= i < |paths| && !(s.pc.SaveBackup? && i == s.pc.i) && !(s.pc.SaveInstall? && i == s.pc.i)
              ==> s.saved.value.items[i] == s.memory.items[i]
    ensures s.pc.SaveBackup? ==> s.memory.items[s.pc.i] == Item(paths[s.pc.i], true, false)
    ensures s.pc.SaveBackup? ==> s.saved.value.items[s.pc.i] == Item(paths[s.pc.i], false, false)
    ensures s.pc.SaveInstall? ==> s.memory.items[s.pc.i] == Item(paths[s.pc.i], Exists(first.game, paths[s.pc.i]), true)
    ensures s.pc.SaveInstall? ==> s.saved.value.items[s.pc.i] == Item(paths[s.pc.i], Exists(first.game, paths[s.pc.i]), false)
  {
    hide Agrees, Statuses, Exists, NewGame;
  }

  /** The first attempt must have undone the rename whose flag is not on disk. */
  ghost predicate GapUndone(s: State, first: Disk, paths: seq<Path>, cuts: seq<Cut>)
    requires s.pc.SaveInstall? ==> s.pc.i < |paths|
  {
    && (s.pc.SaveBackup? ==> cuts != [] && Handled(cuts[0], s.pc.i))
    && (s.pc.SaveInstall? && !Exists(first.game, paths[s.pc.i]) ==> cuts != [] && HalfHandled(cuts[0], s.pc.i))
  }

  /**
   An error or a crash at any step before the marker, any number of interrupted
   attempts to roll back, and a last one: exactly when the old game comes back.
   The first attempt reads the flags in memory; opening the last item stands for
   a process that crashed before its rollback did anything.
   */
  lemma CrashedRollbackExactly(first: Disk, paths: seq<Path>, id: nat, before: Option<nat>, steps: nat, cuts: seq<Cut>)
    requires Prepared(first, paths) && before != Some(id) && AllCuts(cuts, |paths|)
    requires !Marked(After(Start(first, paths, id, before), steps).pc)
    ensures var s := After(Start(first, paths, id, before), steps);
            && s.saved.Some? && |s.memory.items| == |s.saved.value.items| == |paths|
            && (s.pc.SaveInstall? ==> s.pc.i < |paths|)
    ensures var s := After(Start(first, paths, id, before), steps);
            var r := Recover(Attempts(s.disk, s.memory.items, s.saved.value.items, cuts), s.saved, s.marker);
            && (r.game == first.game <==> NoneTwice(s.saved.value.items, cuts) && GapUndone(s, first, paths, cuts))
            && (r.stage == first.stage <==> (s.pc.SaveInstall? ==> cuts != [] && HalfHandled(cuts[0], s.pc.i)))
            && r.backup == map[]
  {
    hide Agrees, PrefixFree, Statuses, Start, Step, Attempts, Exists, AllCuts, Truthful;
    RunDescribes(first, paths, id, before, steps);
    var s := After(Start(first, paths, id, before), steps);
    JournalLags(s, first, paths, id, before);
    CrashedRollback(s, first, paths, id, before, cuts);
  }

  lemma CrashedRollback(s: State, first: Disk, paths: seq<Path>, id: nat, before: Option<nat>, cuts: seq<Cut>)
    requires Inv(s, first, paths, id, before) && Describes(first, s.disk, paths, s.memory.items)
    requires before != Some(id) && AllCuts(cuts, |paths|) && !Marked(s.pc)
    requires s.saved.Some? && AllLag(s.memory.items, s.saved.value.items) && |s.memory.items| == |paths|
    ensures var r := Recover(Attempts(s.disk, s.memory.items, s.saved.value.items, cuts), s.saved, s.marker);
            && (r.game == first.game <==> NoneTwice(s.saved.value.items, cuts) && GapUndone(s, first, paths, cuts))
            && (r.stage == first.stage <==> (s.pc.SaveInstall? ==> cuts != [] && HalfHandled(cuts[0], s.pc.i)))
            && r.backup == map[]
  {
    hide Agrees, PrefixFree, Statuses, Attempts, Exists, AllCuts, Truthful, UndoAll, ItemsAt, SomeWhole, AllLag, NoneTwice;
    var memory, saved := s.memory.items, s.saved.value.items;
    JournalLags(s, first, paths, id, before);
    GameRestored(first, s.disk, paths, memory, saved, cuts);
    StageRestored(first, s.disk, paths, memory, saved, cuts);
    NoneTwiceRounds(saved, cuts);
    forall i | 0 <= i < |paths|
      ensures RoundsOf(cuts, i) == [] <==> cuts == []
      ensures cuts != [] ==> RoundsOf(cuts, i)[0] == RoundOf(cuts[0], i)
    {
    }
    GapItems(s, first, paths, id, before, cuts);
  }

  lemma GapItems(s: State, first: Disk, paths: seq<Path>, id: nat, before: Option<nat>, cuts: seq<Cut>)
    requires Inv(s, first, paths, id, before) && Undoable(s.pc)
    requires s.saved.Some? && |s.memory.items| == |s.saved.value.items| == |paths|
    ensures AllRecover(s.memory.items, s.saved.value.items, cuts)
       <==> NoneTwice(s.saved.value.items, cuts) && GapUndone(s, first, paths, cuts)
    ensures AllRecoverStage(s.memory.items, s.saved.value.items, cuts)
       <==> (s.pc.SaveInstall? ==> cuts != [] && HalfHandled(cuts[0], s.pc.i))
  {
    hide Agrees, Exists, NewGame, SomeWhole, NoneTwice, ItemsAt, RoundOf;
    var memory, saved := s.memory.items, s.saved.value.items;
    JournalLags(s, first, paths, id, before);
    NoneTwiceRounds(saved, cuts);
    forall i | 0 <= i < |paths|
      ensures RoundsOf(cuts, i) == [] <==> cuts == []
      ensures cuts != [] ==> RoundsOf(cuts, i)[0] == RoundOf(cuts[0], i)
    {
    }
    if s.pc.SaveBackup? || s.pc.SaveInstall? {
      var k := s.pc.i;
      assert Recovers(memory[k], saved[k], RoundsOf(cuts, k)) <==> GapUndone(s, first, paths, cuts);
    }
  }
}
