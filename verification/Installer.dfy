/** rollback_transaction, recover_transaction and commit_stage as they run, against the steps of InstallCommit. */
module Installer {
  import opened Wrappers
  import opened InstallPaths
  import opened InstallDisk
  import opened InstallCommit

  class Workspace {
    var game: Tree
    var stage: Tree
    var backup: Tree
    /** transaction.json, and the transaction named by the install marker. */
    var saved: Option<Journal>
    var marker: Option<nat>

    ghost function View(): Disk
      reads this
    {
      Disk(game, stage, backup)
    }

    constructor (game: Tree, stage: Tree)
      ensures View() == Disk(game, stage, map[]) && saved == None && marker == None
    {
      this.game, this.stage, backup, saved, marker := game, stage, map[], None, None;
    }

    /** os.rename from the game directory to the backup, and so on for the other pairs. */
    method MoveToBackup(root: Path)
      modifies `game, `backup
      ensures View() == BackUp(old(View()), root)
    {
      backup := Receive(backup, game, root);
      game := Remove(game, root);
    }

    method MoveToGame(root: Path)
      modifies `game, `stage
      ensures View() == Install(old(View()), root)
    {
      game := Receive(game, stage, root);
      stage := Remove(stage, root);
    }

    /** One round of the rollback loop. */
    method UndoItem(item: Item)
      modifies `game, `stage, `backup
      ensures View() == Undo(old(View()), item)
    {
      hide Exists, Receive, Remove;
      if item.installed && Exists(game, item.path) {
        if !Exists(stage, item.path) {
          stage := Receive(stage, game, item.path);
        }
        game := Remove(game, item.path);
      }
      if item.backedUp && Exists(backup, item.path) {
        if Exists(game, item.path) {
          game := Remove(game, item.path);
        }
        game := Receive(game, backup, item.path);
        backup := Remove(backup, item.path);
      }
    }

    method Rollback(items: seq<Item>)
      modifies `game, `stage, `backup, `saved
      ensures View() == RollBack(old(View()), items) && saved == None
    {
      hide Undo;
      var k := |items|;
      assert items[..k] == items;
      while k > 0
        invariant k <= |items|
        invariant UndoAll(View(), items[..k]) == UndoAll(old(View()), items)
      {
        k := k - 1;
        assert items[..k + 1][..k] == items[..k];
        UndoItem(items[k]);
      }
      assert UndoAll(View(), items[..0]) == View();
      backup := map[];
      saved := None;
    }

    method RecoverTransaction()
      modifies `game, `stage, `backup, `saved
      ensures View() == Recover(old(View()), old(saved), marker) && saved == None
    {
      if saved == None {
        return;
      }
      var journal := saved.value;
      if journal.published || marker == Some(journal.id) {
        backup := map[];
        stage := map[];
        saved := None;
        return;
      }
      Rollback(journal.items);
    }

    /** The step machine is where this workspace and the journal in memory are. */
    ghost predicate Is(s: State, memory: Journal)
      reads this
    {
      s.disk == View() && s.memory == memory && s.saved == saved && s.marker == marker
    }

    ghost predicate Follows(s: State, memory: Journal, first: Disk, paths: seq<Path>, id: nat, before: Option<nat>)
      reads this
    {
      Is(s, memory) && Inv(s, first, paths, id, before) && Prepared(first, paths)
    }

    /** The loop body of commit_stage for one path; a fault is an error raised instead of the operation it counts down to. */
    method CommitPath(paths: seq<Path>, journal: Journal, i: nat, faults: nat,
                      ghost s: State, ghost first: Disk, ghost id: nat, ghost before: Option<nat>)
      returns (memory: Journal, left: nat, failed: bool, ghost n: State)
      requires i < |paths| && Follows(s, journal, first, paths, id, before) && s.pc == AtBackup(i)
      modifies `game, `stage, `backup, `saved
      ensures Follows(n, memory, first, paths, id, before) && Undoable(n.pc) && !Marked(n.pc)
      ensures !failed ==> n.pc == AtBackup(i + 1)
    {
      hide Agrees, Inv, Prepared, Exists, BackUp, Install;
      memory, left, failed, n := journal, faults, true, s;
      InvShape(n, first, paths, id, before);
      if left == 0 {
        return;
      }
      left := left - 1;
      StepKeeps(n, first, paths, id, before);
      n := Step(n);
      InvShape(n, first, paths, id, before);
      if Exists(game, paths[i]) {
        MoveToBackup(paths[i]);
        memory := memory.(items := memory.items[i := memory.items[i].(backedUp := true)]);
        if left == 0 {
          return;
        }
        left := left - 1;
        StepKeeps(n, first, paths, id, before);
        n := Step(n);
        saved := Some(memory);
      }
      if left == 0 {
        return;
      }
      left := left - 1;
      StepKeeps(n, first, paths, id, before);
      n := Step(n);
      MoveToGame(paths[i]);
      memory := memory.(items := memory.items[i := memory.items[i].(installed := true)]);
      if left == 0 {
        return;
      }
      left := left - 1;
      StepKeeps(n, first, paths, id, before);
      n := Step(n);
      saved := Some(memory);
      failed := false;
    }

    lemma InvShape(s: State, first: Disk, paths: seq<Path>, id: nat, before: Option<nat>)
      requires Inv(s, first, paths, id, before)
      ensures |s.memory.items| == |paths| && s.memory.id == id
      ensures forall j :: 0 <= j < |paths| ==> s.memory.items[j].path == paths[j]
    {
      hide Agrees, Exists, NewGame;
    }

    /**
     commit_stage.  The faults count the operations that succeed before one of
     those guarded by the try block raises an error.
     */
    method CommitStage(paths: seq<Path>, id: nat, faults: nat) returns (ok: bool)
      requires PrefixFree(paths) && marker != Some(id)
      modifies this
      ensures ok ==> && NewGame(old(View()), View(), paths) && stage == map[] && backup == map[]
                     && saved == None && marker == Some(id)
      ensures !ok ==> && game == old(game) && stage == old(stage) && backup == map[]
                      && (marker == old(marker) || marker == Some(id))
      ensures !ok && old(saved) == None ==> saved == None
    {
      hide Agrees, Exists, PrefixFree, RollBack, NewGame;
      backup := map[];
      var k := 0;
      while k < |paths|
        invariant k <= |paths|
        invariant forall i :: 0 <= i < k ==> Exists(stage, paths[i])
      {
        if !Exists(stage, paths[k]) {
          return false;
        }
        k := k + 1;
      }
      ghost var first, before := View(), marker;
      var memory := Journal(id, false, seq(|paths|, i requires 0 <= i < |paths| => Item(paths[i], false, false)));
      saved := Some(memory);
      ghost var s := Start(first, paths, id, before);
      StartInv(first, paths, id, before);
      ok, s := CommitAndPublish(paths, memory, faults, s, first, id, before);
      if !ok {
        return;
      }
      PublishedGame(s, first, paths, id, before);
      NewGameSame(old(View()), first, View(), paths);
      backup := map[];
      stage := map[];
      saved := None;
      NewGameSame(old(View()), first, View(), paths);
    }

    lemma NewGameSame(first: Disk, same: Disk, d: Disk, paths: seq<Path>)
      requires same.game == first.game && same.stage == first.stage
      ensures forall n: Disk :: n.game == d.game && NewGame(same, n, paths) ==> NewGame(first, d, paths)
    {
    }

    lemma PublishedGame(s: State, first: Disk, paths: seq<Path>, id: nat, before: Option<nat>)
      requires Inv(s, first, paths, id, before) && s.pc == DropBackup
      ensures NewGame(first, s.disk, paths) && s.marker == Some(id)
    {
    }

    /** The try block: on an error everything is rolled back. */
    method CommitAndPublish(paths: seq<Path>, journal: Journal, faults: nat,
                            ghost s: State, ghost first: Disk, ghost id: nat, ghost before: Option<nat>)
      returns (ok: bool, ghost n: State)
      requires Follows(s, journal, first, paths, id, before) && s.pc == AtBackup(0) && before != Some(id)
      modifies this
      ensures ok ==> Is(n, n.memory) && Inv(n, first, paths, id, before) && n.pc == DropBackup
      ensures !ok ==> View() == first && saved == None && (marker == before || marker == Some(id))
    {
      hide Agrees, Inv, Prepared, Exists, RollBack, NewGame;
      var memory, left, i := journal, faults, 0;
      n := s;
      while i < |paths|
        invariant i <= |paths| && Follows(n, memory, first, paths, id, before) && n.pc == AtBackup(i)
      {
        var failed;
        memory, left, failed, n := CommitPath(paths, memory, i, left, n, first, id, before);
        if failed {
          MarkerOf(n, first, paths, id, before);
          UndoMemory(n, first, paths, id, before);
          Rollback(memory.items);
          return false, n;
        }
        i := i + 1;
      }
      InvShape(n, first, paths, id, before);
      StepKeeps(n, first, paths, id, before);
      n := Step(n);
      if left == 0 {
        MarkerOf(n, first, paths, id, before);
        UndoMemory(n, first, paths, id, before);
        Rollback(memory.items);
        return false, n;
      }
      ok, n := Publish(paths, memory, left - 1, n, first, id, before);
    }

    /** Validation has passed: the marker, the flag, and the journal that says so. */
    method Publish(paths: seq<Path>, journal: Journal, faults: nat,
                   ghost s: State, ghost first: Disk, ghost id: nat, ghost before: Option<nat>)
      returns (ok: bool, ghost n: State)
      requires Follows(s, journal, first, paths, id, before) && s.pc == Validating
      modifies this
      ensures ok ==> Is(n, n.memory) && Inv(n, first, paths, id, before) && n.pc == DropBackup
      ensures !ok ==> View() == first && saved == None && (marker == before || marker == Some(id))
    {
      hide Agrees, Inv, Prepared, Exists, RollBack, NewGame;
      var memory := journal;
      n := s;
      InvShape(n, first, paths, id, before);
      StepKeeps(n, first, paths, id, before);
      n := Step(n);
      if faults == 0 {
        MarkerOf(n, first, paths, id, before);
        UndoMemory(n, first, paths, id, before);
        Rollback(memory.items);
        return false, n;
      }
      StepKeeps(n, first, paths, id, before);
      n := Step(n);
      marker := Some(memory.id);
      StepKeeps(n, first, paths, id, before);
      n := Step(n);
      memory := memory.(published := true);
      if faults == 1 {
        MarkerOf(n, first, paths, id, before);
        UndoMemory(n, first, paths, id, before);
        Rollback(memory.items);
        return false, n;
      }
      StepKeeps(n, first, paths, id, before);
      n := Step(n);
      saved := Some(memory);
      ok := true;
    }

    lemma MarkerOf(s: State, first: Disk, paths: seq<Path>, id: nat, before: Option<nat>)
      requires Inv(s, first, paths, id, before)
      ensures s.marker == before || s.marker == Some(id)
    {
      hide Agrees, Exists, NewGame;
    }
  }
}
