/**
 commit_stage as a sequence of atomic steps on the disk, the journal in memory,
 the journal on disk and the install marker; and what recovery makes of a crash
 or an error after any of them.
 */
module InstallCommit {
  import opened Wrappers
  import opened InstallPaths
  import opened InstallDisk

  datatype Journal = Journal(id: nat, published: bool, items: seq<Item>)

  /** The next thing to be done; i counts commit paths. */
  datatype Pc =
    | AtBackup(i: nat)
    | SaveBackup(i: nat)
    | AtInstall(i: nat)
    | SaveInstall(i: nat)
    | Validating
    | Marking
    | Publishing
    | Saving
    | DropBackup
    | DropStage
    | Unlink
    | Finished

  datatype State = State(disk: Disk, memory: Journal, saved: Option<Journal>, marker: Option<nat>, pc: Pc)

  /** After the checks: nothing has moved, and the fresh journal is on disk. */
  function Start(first: Disk, paths: seq<Path>, id: nat, marker: Option<nat>): State {
    var journal := Journal(id, false, seq(|paths|, i requires 0 <= i < |paths| => Item(paths[i], false, false)));
    State(first, journal, Some(journal), marker, AtBackup(0))
  }

  function Step(s: State): State {
    var n := |s.memory.items|;
    match s.pc
    case AtBackup(i) =>
      if i >= n then s.(pc := Validating)
      else
        var item := s.memory.items[i];
        if Exists(s.disk.game, item.path)
        then s.(disk := BackUp(s.disk, item.path), pc := SaveBackup(i),
                memory := s.memory.(items := s.memory.items[i := item.(backedUp := true)]))
        else s.(pc := AtInstall(i))
    case SaveBackup(i) => s.(saved := Some(s.memory), pc := AtInstall(i))
    case AtInstall(i) =>
      if i >= n then s
      else
        var item := s.memory.items[i];
        s.(disk := Install(s.disk, item.path), pc := SaveInstall(i),
           memory := s.memory.(items := s.memory.items[i := item.(installed := true)]))
    case SaveInstall(i) => s.(saved := Some(s.memory), pc := AtBackup(i + 1))
    case Validating => s.(pc := Marking)
    case Marking => s.(marker := Some(s.memory.id), pc := Publishing)
    case Publishing => s.(memory := s.memory.(published := true), pc := Saving)
    case Saving => s.(saved := Some(s.memory), pc := DropBackup)
    case DropBackup => s.(disk := s.disk.(backup := map[]), pc := DropStage)
    case DropStage => s.(disk := s.disk.(stage := map[]), pc := Unlink)
    case Unlink => s.(saved := None, pc := Finished)
    case Finished => s
  }

  function After(s: State, steps: nat): State {
    if steps == 0 then s else Step(After(s, steps - 1))
  }

  // ---- Rollback and recovery ----

  function RollBack(d: Disk, items: seq<Item>): Disk {
    UndoAll(d, items).(backup := map[])
  }

  function Finalise(d: Disk): Disk {
    Disk(d.game, map[], map[])
  }

  /** recover_transaction, from what a crash leaves on disk. */
  function Recover(d: Disk, saved: Option<Journal>, marker: Option<nat>): Disk {
    match saved
    case None => d
    case Some(journal) =>
      if journal.published || marker == Some(journal.id) then Finalise(d) else RollBack(d, journal.items)
  }

  // ---- What every step keeps ----

  /** How many commit paths are done. */
  function Done(pc: Pc, n: nat): nat {
    match pc
    case AtBackup(i) => i
    case SaveBackup(i) => i
    case AtInstall(i) => i
    case SaveInstall(i) => i
    case _ => n
  }

  /** The flags of commit path j when the next step is pc. */
  function ItemAt(first: Disk, paths: seq<Path>, pc: Pc, j: nat): Item
    requires j < |paths|
  {
    var existed, done := Exists(first.game, paths[j]), Done(pc, |paths|);
    if j < done then Item(paths[j], existed, true)
    else if j > done || pc.AtBackup? then Item(paths[j], false, false)
    else Item(paths[j], existed, pc.SaveInstall?)
  }

  function ItemsAt(first: Disk, paths: seq<Path>, pc: Pc): (items: seq<Item>)
    ensures |items| == |paths|
  {
    seq(|paths|, j requires 0 <= j < |paths| => ItemAt(first, paths, pc, j))
  }

  function StatusOf(item: Item): Status {
    if item.installed then Status(New, Nothing, if item.backedUp then Old else Nothing)
    else if item.backedUp then Status(Nothing, New, Old)
    else Status(Old, New, Nothing)
  }

  function Statuses(items: seq<Item>): (st: seq<Status>)
    ensures |st| == |items|
  {
    seq(|items|, j requires 0 <= j < |items| => StatusOf(items[j]))
  }

  /** Before the backup is dropped. */
  predicate Undoable(pc: Pc) {
    !pc.DropBackup? && !pc.DropStage? && !pc.Unlink? && !pc.Finished?
  }

  predicate Marked(pc: Pc) {
    pc.Publishing? || pc.Saving? || !Undoable(pc)
  }

  /** The point whose journal is on disk: a rename is journalled one step after it is made. */
  function Journalled(pc: Pc): Pc {
    match pc
    case SaveBackup(i) => AtBackup(i)
    case SaveInstall(i) => AtInstall(i)
    case Saving => Publishing
    case _ => pc
  }

  function JournalAt(first: Disk, paths: seq<Path>, id: nat, pc: Pc): Journal {
    Journal(id, pc.Saving? || !Undoable(pc), ItemsAt(first, paths, pc))
  }

  /** The staged tree of every commit path is there, as commit_stage checks before it starts. */
  ghost predicate Prepared(first: Disk, paths: seq<Path>) {
    && PrefixFree(paths) && first.backup == map[]
    && forall i :: 0 <= i < |paths| ==> Exists(first.stage, paths[i])
  }

  /** first is the disk before the commit, and before the marker. */
  ghost predicate Inv(s: State, first: Disk, paths: seq<Path>, id: nat, before: Option<nat>) {
    && Done(s.pc, |paths|) <= |paths|
    && (s.pc.SaveBackup? || s.pc.AtInstall? || s.pc.SaveInstall? ==> s.pc.i < |paths|)
    && (s.pc.SaveBackup? ==> Exists(first.game, paths[s.pc.i]))
    && s.memory == JournalAt(first, paths, id, s.pc)
    && s.saved == (if s.pc.Finished? then None else Some(JournalAt(first, paths, id, Journalled(s.pc))))
    && s.marker == (if Marked(s.pc) then Some(id) else before)
    && (Undoable(s.pc) ==> Agrees(first, s.disk, paths, Statuses(ItemsAt(first, paths, s.pc))))
    && (!Undoable(s.pc) ==> NewGame(first, s.disk, paths))
  }

  /** Under every commit path lies the staged tree, and elsewhere nothing has changed. */
  ghost predicate NewGame(first: Disk, d: Disk, paths: seq<Path>) {
    && (forall i, p :: 0 <= i < |paths| && paths[i] <= p ==> Get(d.game, p) == Get(first.stage, p))
    && (forall p :: !Under(paths, p) ==> Get(d.game, p) == Get(first.game, p))
  }

  lemma StartInv(first: Disk, paths: seq<Path>, id: nat, before: Option<nat>)
    requires Prepared(first, paths)
    ensures Inv(Start(first, paths, id, before), first, paths, id, before)
  {
    hide PrefixFree, Exists;
    var s := Start(first, paths, id, before);
    assert s.memory.items == ItemsAt(first, paths, s.pc);
    forall i, p | 0 <= i < |paths| && paths[i] <= p
      ensures Get(s.disk.backup, p) == PartAt(first, Statuses(s.memory.items)[i].backup, p)
    {
    }
  }

  /** Items and statuses after one more flag of path i is set. */
  lemma ItemsNext(first: Disk, paths: seq<Path>, pc: Pc, next: Pc, i: nat, item: Item)
    requires i < |paths| && ItemAt(first, paths, next, i) == item
    requires forall j :: 0 <= j < |paths| && j != i ==> ItemAt(first, paths, next, j) == ItemAt(first, paths, pc, j)
    ensures ItemsAt(first, paths, next) == ItemsAt(first, paths, pc)[i := item]
    ensures Statuses(ItemsAt(first, paths, next)) == Statuses(ItemsAt(first, paths, pc))[i := StatusOf(item)]
  {
    hide ItemAt, StatusOf;
  }

  lemma ItemsSame(first: Disk, paths: seq<Path>, pc: Pc, next: Pc)
    requires forall j :: 0 <= j < |paths| ==> ItemAt(first, paths, next, j) == ItemAt(first, paths, pc, j)
    ensures ItemsAt(first, paths, next) == ItemsAt(first, paths, pc)
  {
    hide ItemAt;
  }

  lemma BackUpStep(s: State, first: Disk, paths: seq<Path>, id: nat, before: Option<nat>)
    requires Prepared(first, paths) && Inv(s, first, paths, id, before) && s.pc.AtBackup?
    ensures Inv(Step(s), first, paths, id, before)
  {
    hide PrefixFree, Exists, Agrees, BackUp, Statuses, NewGame;
    var i, n := s.pc.i, Step(s);
    if i < |paths| {
      var st := Statuses(ItemsAt(first, paths, s.pc));
      StatusAt(first, paths, s.pc, i);
      ExistsAgrees(first, s.disk, paths, st, i);
      assert s.memory.items[i] == Item(paths[i], false, false);
      if Exists(s.disk.game, paths[i]) {
        NothingThere(first, paths[i]);
        BackUpAgrees(first, s.disk, paths, st, i);
        ItemsNext(first, paths, s.pc, SaveBackup(i), i, Item(paths[i], true, false));
        ItemsSame(first, paths, AtBackup(i), Journalled(SaveBackup(i)));
      } else {
        ItemsSame(first, paths, s.pc, AtInstall(i));
      }
    } else {
      ItemsSame(first, paths, s.pc, Validating);
    }
  }

  lemma StatusAt(first: Disk, paths: seq<Path>, pc: Pc, i: nat)
    requires i < |paths|
    ensures Statuses(ItemsAt(first, paths, pc))[i] == StatusOf(ItemAt(first, paths, pc, i))
    ensures |Statuses(ItemsAt(first, paths, pc))| == |paths|
  {
    hide ItemAt, StatusOf;
  }

  lemma InstallStep(s: State, first: Disk, paths: seq<Path>, id: nat, before: Option<nat>)
    requires Prepared(first, paths) && Inv(s, first, paths, id, before) && s.pc.AtInstall?
    ensures Inv(Step(s), first, paths, id, before)
  {
    hide PrefixFree, Exists, Agrees, Install, Statuses, NewGame;
    var i := s.pc.i;
    var st := Statuses(ItemsAt(first, paths, s.pc));
    StatusAt(first, paths, s.pc, i);
    var existed := Exists(first.game, paths[i]);
    assert s.memory.items[i] == Item(paths[i], existed, false);
    NoGameThere(first, paths[i], StatusOf(Item(paths[i], existed, false)).game);
    InstallAgrees(first, s.disk, paths, st, i);
    ItemsNext(first, paths, s.pc, SaveInstall(i), i, Item(paths[i], existed, true));
  }

  /** The game part that an install finds: backed up, or never there. */
  lemma NoGameThere(first: Disk, root: Path, part: Part)
    requires part == Nothing || (part == Old && !Exists(first.game, root))
    ensures !PartExists(first, part, root)
  {
  }

  lemma OtherStep(s: State, first: Disk, paths: seq<Path>, id: nat, before: Option<nat>)
    requires Prepared(first, paths) && Inv(s, first, paths, id, before) && !s.pc.AtBackup? && !s.pc.AtInstall?
    ensures Inv(Step(s), first, paths, id, before)
  {
    hide PrefixFree, Exists, Agrees, Statuses, NewGame;
    match s.pc
    case SaveBackup(i) =>
      ItemsSame(first, paths, s.pc, AtInstall(i));
    case SaveInstall(i) =>
      ItemsSame(first, paths, s.pc, AtBackup(i + 1));
    case Saving =>
      ItemsSame(first, paths, s.pc, DropBackup);
      AllNew(first, s.disk, paths, Saving);
    case DropBackup =>
      ItemsSame(first, paths, s.pc, DropStage);
      NewGameStays(first, s.disk, Step(s).disk, paths);
    case DropStage =>
      ItemsSame(first, paths, s.pc, Unlink);
      NewGameStays(first, s.disk, Step(s).disk, paths);
    case _ =>
      ItemsSame(first, paths, s.pc, Step(s).pc);
  }

  lemma NewGameStays(first: Disk, d: Disk, n: Disk, paths: seq<Path>)
    requires NewGame(first, d, paths) && n.game == d.game
    ensures NewGame(first, n, paths)
  {
  }

  lemma AllNew(first: Disk, d: Disk, paths: seq<Path>, pc: Pc)
    requires Done(pc, |paths|) == |paths| && !pc.AtBackup? && !pc.SaveBackup? && !pc.AtInstall? && !pc.SaveInstall?
    requires Agrees(first, d, paths, Statuses(ItemsAt(first, paths, pc)))
    ensures NewGame(first, d, paths)
  {
    forall i, p | 0 <= i < |paths| && paths[i] <= p
      ensures Get(d.game, p) == Get(first.stage, p)
    {
      assert Statuses(ItemsAt(first, paths, pc))[i].game == New;
    }
  }

  lemma StepKeeps(s: State, first: Disk, paths: seq<Path>, id: nat, before: Option<nat>)
    requires Prepared(first, paths) && Inv(s, first, paths, id, before)
    ensures Inv(Step(s), first, paths, id, before)
  {
    hide Prepared, Inv, Step;
    match s.pc
    case AtBackup(_) => BackUpStep(s, first, paths, id, before);
    case AtInstall(_) => InstallStep(s, first, paths, id, before);
    case _ => OtherStep(s, first, paths, id, before);
  }

  lemma {:induction false} RunKeeps(first: Disk, paths: seq<Path>, id: nat, before: Option<nat>, steps: nat)
    requires Prepared(first, paths)
    ensures Inv(After(Start(first, paths, id, before), steps), first, paths, id, before)
  {
    hide Prepared, Inv, Step, Start;
    if steps == 0 {
      StartInv(first, paths, id, before);
    } else {
      RunKeeps(first, paths, id, before, steps - 1);
      StepKeeps(After(Start(first, paths, id, before), steps - 1), first, paths, id, before);
    }
  }

  // ---- An error before the marker is written ----

  /** The flags of an item describe its tree: backed up if one was there, and only then. */
  predicate Truthful(first: Disk, item: Item) {
    && (item.backedUp ==> Exists(first.game, item.path))
    && (item.installed && !item.backedUp ==> !Exists(first.game, item.path))
    && Exists(first.stage, item.path)
  }

  /** One round of the rollback, on the flags that describe the disk. */
  lemma UndoTruthful(first: Disk, item: Item, p: Path)
    requires Truthful(first, item) && item.path <= p
    ensures var st := UndoStatus(first, StatusOf(item), item);
            && PartAt(first, st.game, p) == Get(first.game, p)
            && st.stage == New && st.backup == Nothing
  {
    hide Exists;
    NothingThere(first, item.path);
    if !item.backedUp && item.installed {
      NoneBelow(first, Old, item.path, p);
    }
  }

  lemma RollBackOld(first: Disk, d: Disk, paths: seq<Path>, items: seq<Item>)
    requires Prepared(first, paths) && |items| == |paths| && Names(items, paths)
    requires Agrees(first, d, paths, Statuses(items))
    requires forall i :: 0 <= i < |items| ==> Truthful(first, items[i])
    ensures RollBack(d, items) == first
  {
    hide Agrees, PrefixFree, Truthful, Exists, UndoStatus, StatusOf, UndoAll;
    var st := Statuses(items);
    UndoAllAgrees(first, d, paths, st, items);
    var undone := UndoneStatuses(first, st, items);
    forall i, p | 0 <= i < |paths| && paths[i] <= p
      ensures PartAt(first, undone[i].game, p) == Get(first.game, p)
      ensures PartAt(first, undone[i].stage, p) == Get(first.stage, p)
    {
      UndoTruthful(first, items[i], p);
    }
    AllOld(first, UndoAll(d, items), paths, undone);
    AllStaged(first, UndoAll(d, items), paths, undone);
  }

  lemma ItemsTruthful(first: Disk, paths: seq<Path>, pc: Pc, i: nat)
    requires Prepared(first, paths) && i < |paths|
    requires pc.SaveBackup? ==> pc.i < |paths| && Exists(first.game, paths[pc.i])
    ensures Truthful(first, ItemsAt(first, paths, pc)[i]) && ItemsAt(first, paths, pc)[i].path == paths[i]
  {
    hide Exists, PrefixFree;
  }

  /**
   An error raised by any step up to the writing of the marker, whether or not
   that step's journal was written, is rolled back to exactly the disk before
   the commit: every commit path holds its old tree or nothing, and every
   installed tree is back in the stage.
   */
  lemma FailureRestores(first: Disk, paths: seq<Path>, id: nat, before: Option<nat>, steps: nat)
    requires Prepared(first, paths) && before != Some(id)
    requires !Marked(After(Start(first, paths, id, before), steps).pc)
    ensures var s := After(Start(first, paths, id, before), steps);
            RollBack(s.disk, s.memory.items) == first && s.marker == before
  {
    hide Agrees, Statuses, Start, Step, Exists, PrefixFree, RollBack, ItemAt;
    RunKeeps(first, paths, id, before, steps);
    var s := After(Start(first, paths, id, before), steps);
    UndoMemory(s, first, paths, id, before);
  }

  lemma UndoMemory(s: State, first: Disk, paths: seq<Path>, id: nat, before: Option<nat>)
    requires Prepared(first, paths) && Inv(s, first, paths, id, before) && Undoable(s.pc)
    ensures RollBack(s.disk, s.memory.items) == first
  {
    hide Agrees, Statuses, Exists, PrefixFree, RollBack, ItemAt, Truthful, Prepared;
    forall i | 0 <= i < |paths|
      ensures Truthful(first, s.memory.items[i]) && s.memory.items[i].path == paths[i]
    {
      ItemsTruthful(first, paths, s.pc, i);
    }
    RollBackOld(first, s.disk, paths, s.memory.items);
  }

  /** An error after the marker, but before publication is journalled, is rolled back too, and leaves the marker. */
  lemma LateFailureLeavesMarker(first: Disk, paths: seq<Path>, id: nat, before: Option<nat>, steps: nat)
    requires Prepared(first, paths)
    requires var pc := After(Start(first, paths, id, before), steps).pc; pc.Publishing? || pc.Saving?
    ensures var s := After(Start(first, paths, id, before), steps);
            RollBack(s.disk, s.memory.items) == first && s.marker == Some(id)
  {
    hide Agrees, Statuses, Start, Step, Exists, PrefixFree, RollBack, ItemAt;
    RunKeeps(first, paths, id, before, steps);
    UndoMemory(After(Start(first, paths, id, before), steps), first, paths, id, before);
  }

  // ---- A crash ----

  /** The journal on disk describes the disk; it does not between a rename and the journal write that follows. */
  predicate JournalAgrees(s: State) {
    !s.pc.SaveBackup? && !s.pc.SaveInstall?
  }

  lemma CrashBeforeMarker(s: State, first: Disk, paths: seq<Path>, id: nat, before: Option<nat>)
    requires Prepared(first, paths) && Inv(s, first, paths, id, before) && before != Some(id)
    requires JournalAgrees(s) && !Marked(s.pc)
    ensures Recover(s.disk, s.saved, s.marker) == first
  {
    hide Agrees, Statuses, Exists, PrefixFree, RollBack, ItemAt, Prepared;
    UndoMemory(s, first, paths, id, before);
  }

  lemma CrashAfterMarker(s: State, first: Disk, paths: seq<Path>, id: nat, before: Option<nat>)
    requires Prepared(first, paths) && Inv(s, first, paths, id, before) && Marked(s.pc)
    ensures NewGame(first, Recover(s.disk, s.saved, s.marker), paths)
    ensures !s.pc.Finished? ==> Recover(s.disk, s.saved, s.marker).stage == map[] && Recover(s.disk, s.saved, s.marker).backup == map[]
  {
    hide Agrees, Statuses, Exists, PrefixFree, RollBack, ItemAt, NewGame;
    if Undoable(s.pc) {
      AllNew(first, s.disk, paths, s.pc);
    }
    NewGameStays(first, s.disk, Finalise(s.disk), paths);
  }

  /** Where the journal agrees with the disk, recovery yields all the old game, or all the new one once the marker is there. */
  lemma CrashRecovers(first: Disk, paths: seq<Path>, id: nat, before: Option<nat>, steps: nat)
    requires Prepared(first, paths) && before != Some(id)
    requires JournalAgrees(After(Start(first, paths, id, before), steps))
    ensures var s := After(Start(first, paths, id, before), steps);
            var r := Recover(s.disk, s.saved, s.marker);
            if Marked(s.pc) then NewGame(first, r, paths) else r == first
  {
    hide Agrees, Start, Step, Prepared, Recover, NewGame, Inv;
    RunKeeps(first, paths, id, before, steps);
    var s := After(Start(first, paths, id, before), steps);
    if Marked(s.pc) {
      CrashAfterMarker(s, first, paths, id, before);
    } else {
      CrashBeforeMarker(s, first, paths, id, before);
    }
  }

  // ---- A crash between a rename and its journal write ----

  /** What recovery leaves under path k, and elsewhere, when all flags but those of path k describe the disk. */
  lemma RollBackLagging(first: Disk, d: Disk, paths: seq<Path>, items: seq<Item>, k: nat, flags: Item, p: Path)
    requires Prepared(first, paths) && |items| == |paths| && Names(items, paths) && k < |items|
    requires Agrees(first, d, paths, Statuses(items)) && flags.path == paths[k]
    requires forall i :: 0 <= i < |items| ==> Truthful(first, items[i])
    ensures Get(RollBack(d, items[k := flags]).game, p)
         == if paths[k] <= p then PartAt(first, UndoStatus(first, StatusOf(items[k]), flags).game, p) else Get(first.game, p)
  {
    hide Agrees, PrefixFree, Truthful, Exists, UndoStatus, StatusOf, UndoAll, PartAt;
    var st := Statuses(items);
    var lagging := items[k := flags];
    UndoAllAgrees(first, d, paths, st, lagging);
    var undone := UndoneStatuses(first, st, lagging);
    if paths[k] <= p {
      PartsAt(first, UndoAll(d, lagging), paths, undone, k, p);
    } else if Under(paths, p) {
      var i :| 0 <= i < |paths| && paths[i] <= p;
      PartsAt(first, UndoAll(d, lagging), paths, undone, i, p);
      UndoTruthful(first, items[i], p);
    } else {
      Elsewhere(first, UndoAll(d, lagging), paths, undone, p);
    }
  }

  lemma Elsewhere(first: Disk, d: Disk, paths: seq<Path>, st: seq<Status>, p: Path)
    requires Agrees(first, d, paths, st) && !Under(paths, p)
    ensures Get(d.game, p) == Get(first.game, p)
  {
  }

  /** The flag that is missing from the journal on disk. */
  function LaggingFlags(item: Item, pc: Pc): Item {
    if pc.SaveBackup? then item.(backedUp := false) else item.(installed := false)
  }

  lemma LaggingItems(first: Disk, paths: seq<Path>, pc: Pc)
    requires (pc.SaveBackup? || pc.SaveInstall?) && pc.i < |paths|
    ensures ItemsAt(first, paths, Journalled(pc))
         == ItemsAt(first, paths, pc)[pc.i := LaggingFlags(ItemAt(first, paths, pc, pc.i), pc)]
  {
    hide Exists;
  }

  /**
   A crash in the gap after a backup always loses the old tree: recovery leaves
   the path empty, and the backup is removed with it.
   */
  lemma BackUpGapLoses(s: State, first: Disk, paths: seq<Path>, id: nat, before: Option<nat>)
    requires Prepared(first, paths) && Inv(s, first, paths, id, before) && before != Some(id) && s.pc.SaveBackup?
    ensures var r := Recover(s.disk, s.saved, s.marker);
            && r.backup == map[] && Exists(first.game, paths[s.pc.i])
            && forall p :: Get(r.game, p) == if paths[s.pc.i] <= p then None else Get(first.game, p)
  {
    hide Agrees, PrefixFree, Exists, Truthful, RollBack, ItemAt, Statuses;
    var i := s.pc.i;
    LaggingRecovery(s, first, paths, id, before);
    forall p
      ensures Get(Recover(s.disk, s.saved, s.marker).game, p) == if paths[i] <= p then None else Get(first.game, p)
    {
      LaggingPart(s, first, paths, id, before, p);
      GapStatuses(first, paths, s.pc);
    }
    BackupGone(s.disk, ItemsAt(first, paths, Journalled(s.pc)));
  }

  lemma BackupGone(d: Disk, items: seq<Item>)
    ensures RollBack(d, items).backup == map[]
  {
  }

  /** A crash in the gap after an install recovers the old tree if there was one, and otherwise leaves the new one. */
  lemma InstallGap(s: State, first: Disk, paths: seq<Path>, id: nat, before: Option<nat>)
    requires Prepared(first, paths) && Inv(s, first, paths, id, before) && before != Some(id) && s.pc.SaveInstall?
    ensures forall p :: Get(Recover(s.disk, s.saved, s.marker).game, p)
                     == if paths[s.pc.i] <= p && !Exists(first.game, paths[s.pc.i]) then Get(first.stage, p) else Get(first.game, p)
  {
    hide Agrees, PrefixFree, Exists, Truthful, RollBack, ItemAt, Statuses;
    var i := s.pc.i;
    LaggingRecovery(s, first, paths, id, before);
    forall p
      ensures Get(Recover(s.disk, s.saved, s.marker).game, p)
           == if paths[i] <= p && !Exists(first.game, paths[i]) then Get(first.stage, p) else Get(first.game, p)
    {
      LaggingPart(s, first, paths, id, before, p);
      GapStatuses(first, paths, s.pc);
    }
  }

  lemma LaggingRecovery(s: State, first: Disk, paths: seq<Path>, id: nat, before: Option<nat>)
    requires Inv(s, first, paths, id, before) && before != Some(id) && (s.pc.SaveBackup? || s.pc.SaveInstall?)
    ensures Recover(s.disk, s.saved, s.marker) == RollBack(s.disk, ItemsAt(first, paths, Journalled(s.pc)))
  {
    hide Agrees, Exists, RollBack, ItemAt, Statuses;
  }

  lemma LaggingPart(s: State, first: Disk, paths: seq<Path>, id: nat, before: Option<nat>, p: Path)
    requires Prepared(first, paths) && Inv(s, first, paths, id, before) && (s.pc.SaveBackup? || s.pc.SaveInstall?)
    ensures var item := ItemAt(first, paths, s.pc, s.pc.i);
            Get(RollBack(s.disk, ItemsAt(first, paths, Journalled(s.pc))).game, p)
            == if paths[s.pc.i] <= p then PartAt(first, UndoStatus(first, StatusOf(item), LaggingFlags(item, s.pc)).game, p)
               else Get(first.game, p)
  {
    hide Agrees, PrefixFree, Exists, Truthful, RollBack, ItemAt, Statuses, UndoStatus, StatusOf, PartAt, Prepared;
    forall i | 0 <= i < |paths|
      ensures Truthful(first, s.memory.items[i]) && s.memory.items[i].path == paths[i]
    {
      ItemsTruthful(first, paths, s.pc, i);
    }
    LaggingItems(first, paths, s.pc);
    RollBackLagging(first, s.disk, paths, s.memory.items, s.pc.i, LaggingFlags(s.memory.items[s.pc.i], s.pc), p);
  }

  lemma GapStatuses(first: Disk, paths: seq<Path>, pc: Pc)
    requires (pc.SaveBackup? || pc.SaveInstall?) && pc.i < |paths| && Exists(first.stage, paths[pc.i])
    requires pc.SaveBackup? ==> Exists(first.game, paths[pc.i])
    ensures var item := ItemAt(first, paths, pc, pc.i);
            UndoStatus(first, StatusOf(item), LaggingFlags(item, pc)).game
            == if pc.SaveBackup? then Nothing else if Exists(first.game, paths[pc.i]) then Old else New
  {
    hide Exists;
  }

  /** Exactly when recovery from a crash before the marker brings back the old game. */
  lemma RecoversOldExactly(first: Disk, paths: seq<Path>, id: nat, before: Option<nat>, steps: nat)
    requires Prepared(first, paths) && before != Some(id)
    requires !Marked(After(Start(first, paths, id, before), steps).pc)
    ensures var s := After(Start(first, paths, id, before), steps);
            s.pc.SaveInstall? ==> s.pc.i < |paths|
    ensures var s := After(Start(first, paths, id, before), steps);
            Recover(s.disk, s.saved, s.marker).game == first.game
            <==> JournalAgrees(s) || (s.pc.SaveInstall? && Exists(first.game, paths[s.pc.i]))
  {
    hide Agrees, Start, Step, Recover, Statuses, ItemAt, PrefixFree;
    RunKeeps(first, paths, id, before, steps);
    var s := After(Start(first, paths, id, before), steps);
    if JournalAgrees(s) {
      CrashBeforeMarker(s, first, paths, id, before);
    } else if s.pc.SaveBackup? {
      BackUpGapLoses(s, first, paths, id, before);
      var p :| p in first.game && paths[s.pc.i] <= p;
      assert Get(first.game, p).Some?;
      assert Get(Recover(s.disk, s.saved, s.marker).game, p) == None;
    } else {
      InstallGap(s, first, paths, id, before);
      if Exists(first.game, paths[s.pc.i]) {
        SameGets(Recover(s.disk, s.saved, s.marker).game, first.game);
      } else {
        var p :| p in first.stage && paths[s.pc.i] <= p;
        assert Get(first.stage, p).Some?;
        assert Get(Recover(s.disk, s.saved, s.marker).game, p) == Get(first.stage, p);
      }
    }
  }
}
